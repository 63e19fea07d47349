/** Value objects of frame reconstruction. Times are integers (microseconds). */
module FrameModels {
  import opened Sorting

  datatype Option<+T> = None | Some(value: T)

  predicate IsHex(c: char) {
    '0' <= c <= '9' || 'a' <= c <= 'f'
  }

  /** A SHA-256 hex digest. */
  type Digest = s: string | |s| == 64 && forall i :: 0 <= i < |s| ==> IsHex(s[i])
    witness seq(64, _ => '0')

  datatype Position = Position(connector: string, smr: string) {
    predicate IsAssigned() {
      connector != "" && smr != ""
    }

    /** `str(position)`. */
    function Text(): string {
      "C" + connector + "/S" + smr
    }
  }

  const UNASSIGNED_POSITION := Position("", "")

  datatype RawRow = RawRow(
    number: nat,
    position: Position,
    occurrence: nat,
    fingerprint: Digest,
    unassigned: bool)

  datatype GroupKey = GroupKey(charger: string, time: int)

  datatype FrameStatus = COMPLETE | PARTIAL | SEVERELY_INCOMPLETE | MALFORMED | AMBIGUOUS_STATUS

  datatype Classification =
    | UNIQUE
    | EXACT_ROW_DUPLICATE
    | FULL_FRAME_REPLAY
    | PARTIAL_FRAME_REPLAY
    | SAME_TIMESTAMP_DISTINCT_FRAME
    | AMBIGUOUS

  /** What downstream consumes by default. */
  predicate IsCanonical(c: Classification) {
    c == UNIQUE || c == SAME_TIMESTAMP_DISTINCT_FRAME
  }

  datatype Issue =
    | FRAME_MISSING_POSITION
    | FRAME_UNEXPECTED_POSITION
    | AMBIGUOUS_FRAME_BOUNDARY
    | FULL_REPLAY_ISSUE
    | PARTIAL_REPLAY_ISSUE
    | DISTINCT_FRAME_ISSUE
    | INCONSISTENT_TOPOLOGY

  /** Every row a charger reported at one event timestamp. */
  datatype TimestampGroup = TimestampGroup(
    key: GroupKey,
    rows: seq<RawRow>,
    expected: set<Position>,
    occurrences: map<Position, nat>,
    unassignedRows: seq<RawRow>)

  function At(p: Position): RawRow -> bool {
    (r: RawRow) => r.position == p
  }

  /** The rows of one logical position, in the order given. */
  function RowsAt(rows: seq<RawRow>, p: Position): seq<RawRow> {
    Select(rows, At(p))
  }

  function CountAt(rows: seq<RawRow>, p: Position): nat {
    |RowsAt(rows, p)|
  }

  function PositionsOf(rows: seq<RawRow>): set<Position> {
    set r | r in rows :: r.position
  }

  function MaxOf(s: set<nat>): (m: nat)
    ensures forall x :: x in s ==> x <= m
    ensures m != 0 ==> m in s
  {
    if s == {} then 0
    else
      MaxExists(s);
      var m :| m in s && forall x :: x in s ==> x <= m;
      m
  }

  lemma MaxExists(s: set<nat>)
    requires s != {}
    ensures exists m :: m in s && forall x :: x in s ==> x <= m
  {
    var m := Least(s, (x: nat, y: nat) => y <= x);
  }

  // ----- rows keyed in source order

  /** Row numbers increase, and the occurrence index of a row counts the earlier
      rows of the group at the same position. */
  ghost predicate SourceIndexed(rows: seq<RawRow>) {
    rows == [] ||
    var init, last := rows[..|rows| - 1], rows[|rows| - 1];
    && SourceIndexed(init)
    && last.occurrence == CountAt(init, last.position)
    && forall r :: r in init ==> r.number < last.number
  }

  ghost predicate WellFormedGroup(g: TimestampGroup) {
    && SourceIndexed(g.rows)
    && g.occurrences.Keys == PositionsOf(g.rows)
    && forall p :: p in g.occurrences ==> g.occurrences[p] == CountAt(g.rows, p)
  }

  lemma RowsAtAppend(rows: seq<RawRow>, r: RawRow, p: Position)
    ensures RowsAt(rows + [r], p) == if r.position == p then RowsAt(rows, p) + [r] else RowsAt(rows, p)
  {
    SelectPush(rows, r, At(p));
  }

  lemma SourceIndexedAppend(rows: seq<RawRow>, r: RawRow)
    requires SourceIndexed(rows)
    requires r.occurrence == CountAt(rows, r.position)
    requires forall q :: q in rows ==> q.number < r.number
    ensures SourceIndexed(rows + [r])
  {
    hide CountAt;
    assert (rows + [r])[..|rows|] == rows;
  }

  lemma RowsAtMembers(rows: seq<RawRow>, p: Position)
    ensures forall r :: r in RowsAt(rows, p) <==> r in rows && r.position == p
  {
    SelectMembers(rows, At(p));
  }

  lemma PositionsOfAppend(rows: seq<RawRow>, r: RawRow)
    ensures PositionsOf(rows + [r]) == PositionsOf(rows) + {r.position}
  {
  }

  lemma PositiveCount(rows: seq<RawRow>, p: Position)
    ensures CountAt(rows, p) > 0 <==> p in PositionsOf(rows)
  {
    RowsAtMembers(rows, p);
    if p in PositionsOf(rows) {
      var r :| r in rows && r.position == p;
      assert r in RowsAt(rows, p);
    }
    if CountAt(rows, p) > 0 {
      var r := RowsAt(rows, p)[0];
      assert r in rows && r.position == p;
    }
  }

  /** In a position's own column of rows, the k-th row carries occurrence index k. */
  lemma {:induction false} ColumnIndexed(rows: seq<RawRow>, p: Position)
    requires SourceIndexed(rows)
    ensures var column := RowsAt(rows, p);
            forall k :: 0 <= k < |column| ==> column[k].occurrence == k && column[k].position == p && column[k] in rows
  {
    if rows != [] {
      var init, last := rows[..|rows| - 1], rows[|rows| - 1];
      ColumnIndexed(init, p);
      assert rows == init + [last];
      RowsAtAppend(init, last, p);
    }
  }

  lemma {:induction false} ColumnAscends(rows: seq<RawRow>, p: Position)
    requires SourceIndexed(rows)
    ensures var column := RowsAt(rows, p);
            forall i, j :: 0 <= i < j < |column| ==> column[i].number < column[j].number
  {
    if rows != [] {
      var init, last := rows[..|rows| - 1], rows[|rows| - 1];
      ColumnAscends(init, p);
      assert rows == init + [last];
      RowsAtAppend(init, last, p);
      RowsAtMembers(init, p);
    }
  }

  /** A row is found in its own column at its occurrence index. */
  lemma {:induction false} RowInColumn(rows: seq<RawRow>, r: RawRow)
    requires SourceIndexed(rows)
    requires r in rows
    ensures var column := RowsAt(rows, r.position);
            r.occurrence < |column| && column[r.occurrence] == r
  {
    var column := RowsAt(rows, r.position);
    RowsAtMembers(rows, r.position);
    var k :| 0 <= k < |column| && column[k] == r;
    ColumnIndexed(rows, r.position);
  }
}
