/** Attaching logical identity and occurrence indexes to raw rows. */
module LogicalKeys {
  import opened Sorting
  import opened Text
  import opened FrameModels
  import opened CanonicalSerializer

  // ----- identity fields

  function StripDashes(s: string): string {
    if s != [] && s[0] == '-' then StripDashes(s[1..]) else s
  }

  predicate IsNumeral(s: string) {
    var digits := StripDashes(s);
    digits != [] && AllDigits(digits)
  }

  /** A numeric-looking identity loses its ".0" tail. */
  function Clean(value: Option<string>): string {
    if value.None? then ""
    else
      var text := Strip(value.value);
      var n := |text|;
      if n >= 2 && text[n - 2..] == ".0" && IsNumeral(text[..n - 2]) then text[..n - 2] else text
  }

  lemma {:induction false} NumeralHasNoPoint(s: string)
    requires AllDigits(StripDashes(s))
    ensures '.' !in s
    ensures StripDashes(s) != [] ==> IsDigit(s[|s| - 1])
  {
    if s != [] && s[0] == '-' {
      NumeralHasNoPoint(s[1..]);
      assert s == [s[0]] + s[1..];
    }
  }

  /** Text that ends in ".0" after a numeral. */
  predicate HasDecimalTail(text: string) {
    |text| >= 2 && text[|text| - 2..] == ".0" && IsNumeral(text[..|text| - 2])
  }

  lemma CleanOfTrimmed(t: string)
    requires Strip(t) == t && !HasDecimalTail(t)
    ensures Clean(Some(t)) == t
  {
    hide Strip, IsNumeral;
  }

  lemma NumeralIsClean(t: string)
    requires IsNumeral(t)
    ensures Strip(t) == t && !HasDecimalTail(t)
  {
    hide Strip;
    NumeralHasNoPoint(t);
    NumeralStarts(t);
    NumeralTrimmed(t);
    if |t| >= 2 {
      assert t[|t| - 2] in t;
    }
  }

  lemma NumeralStarts(t: string)
    requires IsNumeral(t)
    ensures t != [] && (IsDigit(t[0]) || t[0] == '-')
  {
  }

  lemma NumeralTrimmed(t: string)
    requires t != [] && (IsDigit(t[0]) || t[0] == '-') && IsDigit(t[|t| - 1])
    ensures Strip(t) == t
  {
    StripTrimmed(t);
  }

  /** Cleaning twice changes nothing more. */
  lemma CleanIdempotent(value: Option<string>)
    ensures Clean(Some(Clean(value))) == Clean(value)
  {
    hide Strip, IsNumeral;
    if value.None? {
      EmptyIsClean();
    } else {
      var text := Strip(value.value);
      StripTrims(value.value);
      StripTrimmed(text);
      if HasDecimalTail(text) {
        NumeralIsClean(text[..|text| - 2]);
        CleanOfTrimmed(text[..|text| - 2]);
      } else {
        CleanOfTrimmed(text);
      }
    }
  }

  lemma EmptyIsClean()
    ensures Clean(Some("")) == ""
  {
  }

  /** `1` and `1.0` name the same connector. */
  lemma DecimalTailIgnored(digits: string)
    requires digits != [] && AllDigits(digits)
    ensures Clean(Some(digits + ".0")) == digits == Clean(Some(digits))
  {
    var text := digits + ".0";
    assert text[|text| - 2..] == ".0" && text[..|text| - 2] == digits;
    StripTrimmed(text);
    StripTrimmed(digits);
    NumeralHasNoPoint(digits);
    if |digits| >= 2 {
      assert digits[|digits| - 2] in digits;
    }
  }

  // ----- where each row goes

  datatype SourceRow = SourceRow(
    charger: Option<string>, connector: Option<string>, smr: Option<string>, fingerprint: Digest)

  /** A file: rows in source order, the event times read for them, and the charger id
      to assume where a row has none. */
  datatype Source = Source(rows: seq<SourceRow>, times: seq<Option<int>>, fallback: string)

  datatype Disposition = Undatable | Unassigned(key: GroupKey) | Assigned(key: GroupKey)

  function PositionOf(row: SourceRow): Position {
    var connector, smr := Clean(row.connector), Clean(row.smr);
    if connector != "" && smr != "" then Position(connector, smr) else UNASSIGNED_POSITION
  }

  function ChargerOf(row: SourceRow, fallback: string): string {
    var charger := Clean(row.charger);
    if charger != "" then charger else fallback
  }

  function Dispose(src: Source, i: nat): Disposition
    requires i < |src.rows|
  {
    var row := src.rows[i];
    var time := if i < |src.times| then src.times[i] else None;
    if time.None? then Undatable
    else
      var key := GroupKey(ChargerOf(row, src.fallback), time.value);
      if PositionOf(row).IsAssigned() && key.charger != "" then Assigned(key) else Unassigned(key)
  }

  function RefAt(src: Source, i: nat, occurrence: nat, unassigned: bool): RawRow
    requires i < |src.rows|
  {
    RawRow(i, PositionOf(src.rows[i]), occurrence, src.rows[i].fingerprint, unassigned)
  }

  /** The assigned rows of one group among the first n rows: the occurrence index
      counts the earlier rows of the group at the same position. */
  function AssignedRows(src: Source, n: nat, key: GroupKey): seq<RawRow>
    requires n <= |src.rows|
  {
    if n == 0 then []
    else
      var earlier := AssignedRows(src, n - 1, key);
      if Dispose(src, n - 1) == Assigned(key)
      then earlier + [RefAt(src, n - 1, CountAt(earlier, PositionOf(src.rows[n - 1])), false)]
      else earlier
  }

  function UnassignedRows(src: Source, n: nat, key: GroupKey): seq<RawRow>
    requires n <= |src.rows|
  {
    if n == 0 then []
    else
      var earlier := UnassignedRows(src, n - 1, key);
      if Dispose(src, n - 1) == Unassigned(key) then earlier + [RefAt(src, n - 1, 0, true)] else earlier
  }

  /** The groups that hold an unassigned row, in order of first appearance: the order
      of a dictionary's keys. */
  function UnassignedOrder(src: Source, n: nat): seq<GroupKey>
    requires n <= |src.rows|
  {
    if n == 0 then []
    else
      var earlier := UnassignedOrder(src, n - 1);
      if Dispose(src, n - 1).Unassigned? && Dispose(src, n - 1).key !in earlier
      then earlier + [Dispose(src, n - 1).key]
      else earlier
  }

  function UndatableRows(src: Source, n: nat): seq<RawRow>
    requires n <= |src.rows|
  {
    if n == 0 then []
    else
      var earlier := UndatableRows(src, n - 1);
      if Dispose(src, n - 1) == Undatable then earlier + [RefAt(src, n - 1, 0, true)] else earlier
  }

  lemma {:induction false} AssignedRowsIndexed(src: Source, n: nat, key: GroupKey)
    requires n <= |src.rows|
    ensures SourceIndexed(AssignedRows(src, n, key))
    ensures forall r :: r in AssignedRows(src, n, key) ==>
              r.number < n && r == RefAt(src, r.number, r.occurrence, false) && Dispose(src, r.number) == Assigned(key)
  {
    hide Dispose, PositionOf, CountAt, SourceIndexed;
    if n == 0 {
      SourceIndexedEmpty();
    } else {
      AssignedRowsIndexed(src, n - 1, key);
      var earlier := AssignedRows(src, n - 1, key);
      if Dispose(src, n - 1) == Assigned(key) {
        SourceIndexedAppend(earlier, RefAt(src, n - 1, CountAt(earlier, PositionOf(src.rows[n - 1])), false));
      }
    }
  }

  lemma SourceIndexedEmpty()
    ensures SourceIndexed([])
  {
  }

  // ----- evidence for the topology

  /** The (group, position) pairs that hold at least one row. */
  function Slots(src: Source, n: nat): set<(GroupKey, Position)>
    requires n <= |src.rows|
  {
    set i | 0 <= i < n && Dispose(src, i).Assigned? :: (Dispose(src, i).key, PositionOf(src.rows[i]))
  }

  function GroupsOf(slots: set<(GroupKey, Position)>): set<GroupKey> {
    set s | s in slots :: s.0
  }

  function PlacesOf(slots: set<(GroupKey, Position)>): set<Position> {
    set s | s in slots :: s.1
  }

  /** The groups in which a position appears. */
  function GroupsWith(slots: set<(GroupKey, Position)>, p: Position): set<GroupKey> {
    set s | s in slots && s.1 == p :: s.0
  }

  function GroupCounts(slots: set<(GroupKey, Position)>): map<Position, nat> {
    map p | p in PlacesOf(slots) :: |GroupsWith(slots, p)|
  }

  function ConnectorsSeen(src: Source, n: nat): set<string>
    requires n <= |src.rows|
  {
    set i | 0 <= i < n && Clean(src.rows[i].connector) != "" :: Clean(src.rows[i].connector)
  }

  function SmrsSeen(src: Source, n: nat): set<string>
    requires n <= |src.rows|
  {
    set i | 0 <= i < n && Clean(src.rows[i].smr) != "" :: Clean(src.rows[i].smr)
  }

  /** Rows whose digest an earlier row of the file already had. */
  function Repeats(src: Source, n: nat): nat
    requires n <= |src.rows|
  {
    if n == 0 then 0
    else Repeats(src, n - 1)
         + if src.rows[n - 1].fingerprint in FingerprintsSeen(src, n - 1) then 1 else 0
  }

  function FingerprintsSeen(src: Source, n: nat): set<Digest>
    requires n <= |src.rows|
  {
    set i | 0 <= i < n :: src.rows[i].fingerprint
  }

  // ----- the builder's single pass

  datatype KeyedRows = KeyedRows(
    byTimestamp: map<GroupKey, seq<RawRow>>,
    unassigned: map<GroupKey, seq<RawRow>>,
    unassignedOrder: seq<GroupKey>,
    undatable: seq<RawRow>,
    positionGroupCounts: map<Position, nat>,
    groupTotal: nat,
    connectors: seq<string>,
    smrs: seq<string>,
    exactDuplicates: nat)

  function RowsUnder(m: map<GroupKey, seq<RawRow>>, key: GroupKey): seq<RawRow> {
    if key in m then m[key] else []
  }

  function Counted(m: map<(GroupKey, Position), nat>, key: GroupKey, p: Position): nat {
    if (key, p) in m then m[(key, p)] else 0
  }

  ghost predicate GroupedByKey(src: Source, n: nat, m: map<GroupKey, seq<RawRow>>)
    requires n <= |src.rows|
  {
    && (forall key :: RowsUnder(m, key) == AssignedRows(src, n, key))
    && (forall key :: key in m ==> m[key] != [])
  }

  ghost predicate OccurrencesCounted(src: Source, n: nat, m: map<(GroupKey, Position), nat>)
    requires n <= |src.rows|
  {
    forall key, p :: Counted(m, key, p) == CountAt(AssignedRows(src, n, key), p)
  }

  ghost predicate SlotsFiled(src: Source, n: nat, m: map<GroupKey, set<Position>>)
    requires n <= |src.rows|
  {
    forall key, p :: (key in m && p in m[key]) <==> (key, p) in Slots(src, n)
  }

  ghost predicate UnassignedFiled(src: Source, n: nat, m: map<GroupKey, seq<RawRow>>, order: seq<GroupKey>)
    requires n <= |src.rows|
  {
    && (forall key :: RowsUnder(m, key) == UnassignedRows(src, n, key))
    && (forall key :: key in m ==> m[key] != [])
    && (forall key :: key in order <==> key in m)
    && Distinct(order)
    && order == UnassignedOrder(src, n)
  }

  lemma FileAssigned(src: Source, n: nat, m: map<GroupKey, seq<RawRow>>, counter: map<(GroupKey, Position), nat>)
    requires n < |src.rows| && Dispose(src, n).Assigned?
    requires GroupedByKey(src, n, m) && OccurrencesCounted(src, n, counter)
    ensures var key, p := Dispose(src, n).key, PositionOf(src.rows[n]);
            var ref := RefAt(src, n, Counted(counter, key, p), false);
            && GroupedByKey(src, n + 1, m[key := RowsUnder(m, key) + [ref]])
            && OccurrencesCounted(src, n + 1, counter[(key, p) := Counted(counter, key, p) + 1])
  {
    hide Dispose, PositionOf, CountAt;
    var key, p := Dispose(src, n).key, PositionOf(src.rows[n]);
    var ref := RefAt(src, n, Counted(counter, key, p), false);
    assert Counted(counter, key, p) == CountAt(AssignedRows(src, n, key), p);
    forall k
      ensures AssignedRows(src, n + 1, k)
              == if k == key then AssignedRows(src, n, k) + [ref] else AssignedRows(src, n, k)
    {
    }
    forall q
      ensures CountAt(AssignedRows(src, n + 1, key), q)
              == CountAt(AssignedRows(src, n, key), q) + if q == p then 1 else 0
    {
      CountAppend(AssignedRows(src, n, key), ref, q);
    }
    var m' := m[key := RowsUnder(m, key) + [ref]];
    forall k
      ensures RowsUnder(m', k) == AssignedRows(src, n + 1, k)
    {
      assert RowsUnder(m, k) == AssignedRows(src, n, k);
    }
    var counter' := counter[(key, p) := Counted(counter, key, p) + 1];
    forall k, q
      ensures Counted(counter', k, q) == CountAt(AssignedRows(src, n + 1, k), q)
    {
      assert Counted(counter, k, q) == CountAt(AssignedRows(src, n, k), q);
    }
  }

  lemma CountAppend(rows: seq<RawRow>, r: RawRow, p: Position)
    ensures CountAt(rows + [r], p) == CountAt(rows, p) + if r.position == p then 1 else 0
  {
    RowsAtAppend(rows, r, p);
  }

  lemma SkipAssigned(src: Source, n: nat, m: map<GroupKey, seq<RawRow>>, counter: map<(GroupKey, Position), nat>)
    requires n < |src.rows| && !Dispose(src, n).Assigned?
    requires GroupedByKey(src, n, m) && OccurrencesCounted(src, n, counter)
    ensures GroupedByKey(src, n + 1, m) && OccurrencesCounted(src, n + 1, counter)
  {
    hide Dispose, PositionOf, CountAt;
    forall k
      ensures AssignedRows(src, n + 1, k) == AssignedRows(src, n, k)
    {
    }
  }

  lemma FileUnassigned(src: Source, n: nat, m: map<GroupKey, seq<RawRow>>, order: seq<GroupKey>)
    requires n < |src.rows| && Dispose(src, n).Unassigned?
    requires UnassignedFiled(src, n, m, order)
    ensures var key := Dispose(src, n).key;
            UnassignedFiled(
              src, n + 1,
              m[key := RowsUnder(m, key) + [RefAt(src, n, 0, true)]],
              if key in m then order else order + [key])
  {
    hide Dispose, PositionOf;
    var key := Dispose(src, n).key;
    var m' := m[key := RowsUnder(m, key) + [RefAt(src, n, 0, true)]];
    forall k
      ensures RowsUnder(m', k) == UnassignedRows(src, n + 1, k)
    {
      assert RowsUnder(m, k) == UnassignedRows(src, n, k);
    }
  }

  lemma SkipUnassigned(src: Source, n: nat, m: map<GroupKey, seq<RawRow>>, order: seq<GroupKey>)
    requires n < |src.rows| && !Dispose(src, n).Unassigned?
    requires UnassignedFiled(src, n, m, order)
    ensures UnassignedFiled(src, n + 1, m, order)
  {
    hide Dispose, PositionOf;
    forall k
      ensures UnassignedRows(src, n + 1, k) == UnassignedRows(src, n, k)
    {
    }
  }

  lemma SlotsGrow(src: Source, n: nat)
    requires n < |src.rows|
    ensures Slots(src, n + 1)
            == Slots(src, n)
               + if Dispose(src, n).Assigned? then {(Dispose(src, n).key, PositionOf(src.rows[n]))} else {}
  {
    hide Dispose, PositionOf;
  }

  lemma FileSlot(src: Source, n: nat, m: map<GroupKey, set<Position>>)
    requires n < |src.rows|
    requires SlotsFiled(src, n, m)
    requires forall key :: key in m ==> m[key] != {}
    ensures var key := if Dispose(src, n).Assigned? then Dispose(src, n).key else GroupKey("", 0);
            var p := PositionOf(src.rows[n]);
            SlotsFiled(src, n + 1,
                       if Dispose(src, n).Assigned? then m[key := (if key in m then m[key] else {}) + {p}] else m)
  {
    hide Dispose, PositionOf, Slots;
    SlotsGrow(src, n);
  }

  /** The second pass: in how many groups each position appears. */
  method CountGroups(filed: map<GroupKey, set<Position>>, ghost slots: set<(GroupKey, Position)>)
    returns (counts: map<Position, nat>)
    requires forall key, p :: (key in filed && p in filed[key]) <==> (key, p) in slots
    ensures counts == GroupCounts(slots)
  {
    counts := map[];
    var pending := filed.Keys;
    ghost var done: set<(GroupKey, Position)> := {};
    while pending != {}
      invariant pending <= filed.Keys
      invariant forall s :: s in done <==> s in slots && s.0 !in pending
      invariant counts == GroupCounts(done)
      decreases pending
    {
      var key :| key in pending;
      var places := filed[key];
      while places != {}
        invariant places <= filed[key]
        invariant forall s :: s in done <==> s in slots && (s.0 !in pending || (s.0 == key && s.1 !in places))
        invariant counts == GroupCounts(done)
        decreases places
      {
        var p :| p in places;
        CountOneMore(done, key, p);
        counts := counts[p := (if p in counts then counts[p] else 0) + 1];
        done := done + {(key, p)};
        places := places - {p};
      }
      pending := pending - {key};
    }
    assert done == slots;
  }

  lemma GroupsGrow(done: set<(GroupKey, Position)>, key: GroupKey, p: Position, q: Position)
    requires (key, p) !in done
    ensures var after := done + {(key, p)};
            GroupsWith(after, q) == if q == p then GroupsWith(done, q) + {key} else GroupsWith(done, q)
    ensures key !in GroupsWith(done, p)
  {
  }

  lemma NoGroups(done: set<(GroupKey, Position)>, p: Position)
    requires p !in PlacesOf(done)
    ensures GroupsWith(done, p) == {}
  {
  }

  lemma PlacesGrow(done: set<(GroupKey, Position)>, key: GroupKey, p: Position)
    ensures PlacesOf(done + {(key, p)}) == PlacesOf(done) + {p}
  {
    assert (key, p) in done + {(key, p)};
  }

  lemma CountOneMore(done: set<(GroupKey, Position)>, key: GroupKey, p: Position)
    requires (key, p) !in done
    ensures var before := GroupCounts(done);
            GroupCounts(done + {(key, p)}) == before[p := (if p in before then before[p] else 0) + 1]
  {
    hide GroupsWith, PlacesOf;
    var after := done + {(key, p)};
    var before, counts := GroupCounts(done), GroupCounts(after);
    PlacesGrow(done, key, p);
    forall q | q in PlacesOf(after)
      ensures counts[q] == (if q in before then before[q] else 0) + if q == p then 1 else 0
    {
      GroupsGrow(done, key, p, q);
      if q !in PlacesOf(done) {
        NoGroups(done, q);
      }
    }
  }

  ghost predicate Observed(
      src: Source, n: nat, connectors: set<string>, smrs: set<string>, seen: set<Digest>, repeats: nat)
    requires n <= |src.rows|
  {
    connectors == ConnectorsSeen(src, n) && smrs == SmrsSeen(src, n)
    && seen == FingerprintsSeen(src, n) && repeats == Repeats(src, n)
  }

  lemma ObserveRow(src: Source, n: nat, connectors: set<string>, smrs: set<string>, seen: set<Digest>, repeats: nat)
    requires n < |src.rows|
    requires Observed(src, n, connectors, smrs, seen, repeats)
    ensures var row := src.rows[n];
            var connector, smr := Clean(row.connector), Clean(row.smr);
            Observed(
              src, n + 1,
              if connector != "" then connectors + {connector} else connectors,
              if smr != "" then smrs + {smr} else smrs,
              seen + {row.fingerprint},
              repeats + if row.fingerprint in seen then 1 else 0)
  {
    hide Clean;
  }

  method Build(src: Source) returns (keyed: KeyedRows)
    ensures GroupedByKey(src, |src.rows|, keyed.byTimestamp)
    ensures UnassignedFiled(src, |src.rows|, keyed.unassigned, keyed.unassignedOrder)
    ensures keyed.undatable == UndatableRows(src, |src.rows|)
    ensures keyed.positionGroupCounts == GroupCounts(Slots(src, |src.rows|))
    ensures keyed.groupTotal == |GroupsOf(Slots(src, |src.rows|))|
    ensures keyed.connectors == SortedTexts(ConnectorsSeen(src, |src.rows|))
    ensures keyed.smrs == SortedTexts(SmrsSeen(src, |src.rows|))
    ensures keyed.exactDuplicates == Repeats(src, |src.rows|)
  {
    hide GroupedByKey, OccurrencesCounted, SlotsFiled, UnassignedFiled, Observed, Clean, Slots, IsSpace;
    var byTimestamp: map<GroupKey, seq<RawRow>> := map[];
    var unassigned: map<GroupKey, seq<RawRow>> := map[];
    var unassignedOrder: seq<GroupKey> := [];
    var undatable: seq<RawRow> := [];
    var occurrenceCounter: map<(GroupKey, Position), nat> := map[];
    var positionsPerGroup: map<GroupKey, set<Position>> := map[];
    var seen: set<Digest> := {};
    var exactDuplicates := 0;
    var connectors: set<string> := {};
    var smrs: set<string> := {};
    NothingFiled(src);
    for index := 0 to |src.rows|
      invariant GroupedByKey(src, index, byTimestamp)
      invariant OccurrencesCounted(src, index, occurrenceCounter)
      invariant SlotsFiled(src, index, positionsPerGroup)
      invariant forall key :: key in positionsPerGroup ==> positionsPerGroup[key] != {}
      invariant UnassignedFiled(src, index, unassigned, unassignedOrder)
      invariant undatable == UndatableRows(src, index)
      invariant Observed(src, index, connectors, smrs, seen, exactDuplicates)
    {
      var row := src.rows[index];
      ObserveRow(src, index, connectors, smrs, seen, exactDuplicates);
      FileSlot(src, index, positionsPerGroup);
      if row.fingerprint in seen {
        exactDuplicates := exactDuplicates + 1;
      }
      seen := seen + {row.fingerprint};
      var connector, smr := Clean(row.connector), Clean(row.smr);
      if connector != "" {
        connectors := connectors + {connector};
      }
      if smr != "" {
        smrs := smrs + {smr};
      }
      var position := PositionOf(row);
      match Dispose(src, index)
      case Undatable =>
        SkipAssigned(src, index, byTimestamp, occurrenceCounter);
        SkipUnassigned(src, index, unassigned, unassignedOrder);
        undatable := undatable + [RefAt(src, index, 0, true)];
      case Unassigned(key) =>
        SkipAssigned(src, index, byTimestamp, occurrenceCounter);
        FileUnassigned(src, index, unassigned, unassignedOrder);
        if key !in unassigned {
          unassignedOrder := unassignedOrder + [key];
        }
        unassigned := unassigned[key := RowsUnder(unassigned, key) + [RefAt(src, index, 0, true)]];
      case Assigned(key) =>
        FileAssigned(src, index, byTimestamp, occurrenceCounter);
        SkipUnassigned(src, index, unassigned, unassignedOrder);
        var occurrence := Counted(occurrenceCounter, key, position);
        occurrenceCounter := occurrenceCounter[(key, position) := occurrence + 1];
        byTimestamp := byTimestamp[key := RowsUnder(byTimestamp, key) + [RefAt(src, index, occurrence, false)]];
        var known := if key in positionsPerGroup then positionsPerGroup[key] else {};
        positionsPerGroup := positionsPerGroup[key := known + {position}];
    }
    FiledSlots(src, |src.rows|, positionsPerGroup);
    var counts := CountGroups(positionsPerGroup, Slots(src, |src.rows|));
    ObservedFields(src, |src.rows|, connectors, smrs, seen, exactDuplicates);
    keyed := KeyedRows(
      byTimestamp, unassigned, unassignedOrder, undatable, counts, |positionsPerGroup|,
      SortedTexts(connectors), SortedTexts(smrs), exactDuplicates);
  }

  lemma NothingFiled(src: Source)
    ensures GroupedByKey(src, 0, map[]) && OccurrencesCounted(src, 0, map[]) && SlotsFiled(src, 0, map[])
    ensures UnassignedFiled(src, 0, map[], []) && Observed(src, 0, {}, {}, {}, 0)
  {
  }

  lemma FiledSlots(src: Source, n: nat, m: map<GroupKey, set<Position>>)
    requires n <= |src.rows| && SlotsFiled(src, n, m)
    requires forall key :: key in m ==> m[key] != {}
    ensures forall key, p :: (key in m && p in m[key]) <==> (key, p) in Slots(src, n)
    ensures |m| == |GroupsOf(Slots(src, n))|
  {
    hide Slots;
    forall key | key in m
      ensures key in GroupsOf(Slots(src, n))
    {
      var p :| p in m[key];
      assert (key, p) in Slots(src, n);
    }
    assert m.Keys == GroupsOf(Slots(src, n));
  }

  lemma ObservedFields(src: Source, n: nat, connectors: set<string>, smrs: set<string>, seen: set<Digest>, repeats: nat)
    requires n <= |src.rows|
    requires Observed(src, n, connectors, smrs, seen, repeats)
    ensures connectors == ConnectorsSeen(src, n) && smrs == SmrsSeen(src, n) && repeats == Repeats(src, n)
  {
    hide Clean;
  }
}
