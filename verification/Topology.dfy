/** Which logical positions one frame is expected to contain. */
module Topology {
  import opened Sorting
  import opened Text
  import opened FrameModels
  import opened CanonicalSerializer
  import opened LogicalKeys

  datatype Basis = CHARGER_CONFIGURATION | CONFIGURED_DEFAULT | OBSERVED_STABLE | UNRESOLVED

  datatype FrameTopology = FrameTopology(
    positions: set<Position>,
    connectors: seq<string>,
    smrs: seq<string>,
    basis: Basis,
    isFullMatrix: bool)

  datatype Settings = Settings(
    chargerConnectors: Option<int>,
    chargerSmrs: Option<int>,
    defaultConnectors: Option<int>,
    defaultSmrs: Option<int>,
    stability: real)

  // ----- labels

  function NumericValue(s: string): nat {
    if AllDigits(s) then NatValue(s) else 0
  }

  predicate NumericLe(a: string, b: string) {
    NumericValue(a) <= NumericValue(b)
  }

  function NonEmpty(values: seq<string>): set<string> {
    set v | v in values && v != ""
  }

  /** Numeric order when every identity looks numeric, dictionary order otherwise. */
  function SortedIdentities(values: seq<string>): seq<string> {
    var items := SortedTexts(NonEmpty(values));
    if forall i :: 0 <= i < |items| ==> AllDigits(items[i]) then Sort(items, NumericLe) else items
  }

  lemma {:induction false} DistinctOnce<T(!new)>(s: seq<T>)
    ensures Distinct(s) <==> forall x :: multiset(s)[x] <= 1
  {
    if s != [] {
      var init, last := s[..|s| - 1], s[|s| - 1];
      DistinctOnce(init);
      assert s == init + [last];
      assert multiset(s) == multiset(init) + multiset{last};
      if Distinct(s) {
        assert last !in init;
        assert last !in multiset(init);
      }
      if forall x :: multiset(s)[x] <= 1 {
        assert multiset(s)[last] == multiset(init)[last] + 1;
        assert last !in init;
        assert forall x :: multiset(init)[x] <= multiset(s)[x];
      }
    }
  }

  lemma SortKeepsDistinct(s: seq<string>, le: (string, string) -> bool)
    requires Distinct(s)
    ensures Distinct(Sort(s, le))
  {
    DistinctOnce(s);
    DistinctOnce(Sort(s, le));
  }

  lemma IdentitiesListed(values: seq<string>)
    ensures Distinct(SortedIdentities(values))
    ensures forall v :: v in SortedIdentities(values) <==> v in values && v != ""
    ensures |SortedIdentities(values)| == |NonEmpty(values)|
  {
    hide Sort, TextLe, NumericLe;
    var items := SortedTexts(NonEmpty(values));
    SortKeepsDistinct(items, NumericLe);
    MembersFromMultiset(Sort(items, NumericLe), items);
  }

  /** `[1, 2, ...]` as text. */
  function Ordinals(n: int): seq<string> {
    if n <= 0 then [] else Ordinals(n - 1) + [NatText(n)]
  }

  /** Pad with the ordinals not yet used, from `ordinal` on. */
  function Padded(padded: seq<string>, declared: int, ordinal: nat): seq<string>
    decreases declared - |padded|, Reachable(Members(padded), "", ordinal)
  {
    if |padded| >= declared then padded
    else
      CounterAdvances(Members(padded), "", ordinal);
      assert "" + NatText(ordinal) == NatText(ordinal);
      if NatText(ordinal) in padded then Padded(padded, declared, ordinal + 1)
      else Padded(padded + [NatText(ordinal)], declared, ordinal + 1)
  }

  /** Python's `s[:n]`. */
  function SliceTo(s: seq<string>, n: int): seq<string> {
    if n >= |s| then s else if n >= 0 then s[..n] else if |s| + n >= 0 then s[..|s| + n] else []
  }

  function Labels(declared: int, observed: seq<string>): seq<string> {
    var identities := SortedIdentities(observed);
    if |identities| == declared then identities
    else if identities == [] then Ordinals(declared)
    else if |identities| < declared then SortedIdentities(Padded(identities, declared, 1))
    else SliceTo(identities, declared)
  }

  /** The padding loop: it ends, whatever identities were observed. */
  method PadLabels(identities: seq<string>, declared: int) returns (padded: seq<string>)
    ensures padded == Padded(identities, declared, 1)
  {
    padded := identities;
    var ordinal := 1;
    while |padded| < declared
      invariant ordinal >= 1
      invariant Padded(padded, declared, ordinal) == Padded(identities, declared, 1)
      decreases declared - |padded|, Reachable(Members(padded), "", ordinal)
    {
      var candidate := NatText(ordinal);
      CounterAdvances(Members(padded), "", ordinal);
      assert "" + NatText(ordinal) == candidate;
      if candidate !in padded {
        padded := padded + [candidate];
      }
      ordinal := ordinal + 1;
    }
  }

  lemma OrdinalsExact(n: nat)
    ensures |Ordinals(n)| == n
    ensures forall i :: 0 <= i < n ==> Ordinals(n)[i] == NatText(i + 1)
  {
  }

  lemma OrdinalsDistinct(n: nat)
    ensures Distinct(Ordinals(n))
  {
    hide Ordinals, NatText, NatValue;
    OrdinalsExact(n);
    forall i, j | 0 <= i < j < n
      ensures Ordinals(n)[i] != Ordinals(n)[j]
    {
      NatTextReadsBack(i + 1);
      NatTextReadsBack(j + 1);
    }
  }

  lemma {:induction false} PaddedExact(padded: seq<string>, declared: int, ordinal: nat)
    requires Distinct(padded) && "" !in padded && |padded| <= declared
    ensures var r := Padded(padded, declared, ordinal);
            |r| == declared && Distinct(r) && "" !in r && padded <= r
    decreases declared - |padded|, Reachable(Members(padded), "", ordinal)
  {
    if |padded| < declared {
      CounterAdvances(Members(padded), "", ordinal);
      assert "" + NatText(ordinal) == NatText(ordinal);
      if NatText(ordinal) in padded {
        PaddedExact(padded, declared, ordinal + 1);
      } else {
        PaddedExact(padded + [NatText(ordinal)], declared, ordinal + 1);
      }
    }
  }

  lemma MembersCount(s: seq<string>)
    requires Distinct(s) && "" !in s
    ensures |NonEmpty(s)| == |s|
  {
    DistinctLength(s);
    assert NonEmpty(s) == set x | x in s;
  }

  /** A positive declared count gives exactly that many different labels: all the
      observed ones when there is room for them, otherwise the first of them. */
  lemma LabelsExact(declared: int, observed: seq<string>)
    requires declared > 0
    ensures |Labels(declared, observed)| == declared && Distinct(Labels(declared, observed))
    ensures |SortedIdentities(observed)| <= declared ==>
              forall v :: v in observed && v != "" ==> v in Labels(declared, observed)
    ensures |SortedIdentities(observed)| >= declared ==>
              Labels(declared, observed) == SortedIdentities(observed)[..declared]
  {
    hide SortedIdentities, Padded;
    var identities := SortedIdentities(observed);
    IdentitiesListed(observed);
    if |identities| == declared {
      assert identities[..declared] == identities;
    } else if identities == [] {
      OrdinalsExact(declared);
      OrdinalsDistinct(declared);
      assert forall v :: v in observed && v != "" ==> v in identities;
    } else if |identities| < declared {
      PaddedExact(identities, declared, 1);
      var padded := Padded(identities, declared, 1);
      IdentitiesListed(padded);
      MembersCount(padded);
      assert forall v :: v in identities ==> v in padded;
    }
  }

  // ----- the expected position set

  function Cross(connectors: seq<string>, smrs: seq<string>): set<Position> {
    set c, s | c in connectors && s in smrs :: Position(c, s)
  }

  function Row(connector: string, smrs: seq<string>): set<Position> {
    set s | s in smrs :: Position(connector, s)
  }

  lemma {:induction false} RowSize(connector: string, smrs: seq<string>)
    requires Distinct(smrs)
    ensures |Row(connector, smrs)| == |smrs|
  {
    if smrs != [] {
      var init, last := smrs[..|smrs| - 1], smrs[|smrs| - 1];
      RowSize(connector, init);
      assert smrs == init + [last];
      assert Row(connector, smrs) == Row(connector, init) + {Position(connector, last)};
      assert last !in init;
    }
  }

  lemma CrossSplits(init: seq<string>, last: string, smrs: seq<string>)
    requires last !in init
    ensures Cross(init + [last], smrs) == Cross(init, smrs) + Row(last, smrs)
    ensures Cross(init, smrs) !! Row(last, smrs)
  {
    var connectors := init + [last];
    forall p | p in Cross(connectors, smrs)
      ensures p in Cross(init, smrs) + Row(last, smrs)
    {
      assert p.connector in init || p.connector == last;
    }
    forall p | p in Cross(init, smrs) + Row(last, smrs)
      ensures p in Cross(connectors, smrs)
    {
      assert p.connector in connectors && p.smr in smrs;
    }
  }

  lemma CrossOfNone(smrs: seq<string>)
    ensures |Cross([], smrs)| == 0
  {
    assert Cross([], smrs) == {};
  }

  lemma DisjointUnionSize(a: set<Position>, b: set<Position>)
    requires a !! b
    ensures |a + b| == |a| + |b|
  {
  }

  lemma OneMoreTimes(a: nat, b: nat)
    ensures (a + 1) * b == a * b + b
  {
  }

  /** A frame has connectors times SMRs positions. */
  lemma {:induction false} CrossSize(connectors: seq<string>, smrs: seq<string>)
    requires Distinct(connectors) && Distinct(smrs)
    ensures |Cross(connectors, smrs)| == |connectors| * |smrs|
  {
    hide Cross, Row;
    if connectors == [] {
      CrossOfNone(smrs);
    } else {
      var init, last := connectors[..|connectors| - 1], connectors[|connectors| - 1];
      CrossSize(init, smrs);
      RowSize(last, smrs);
      assert connectors == init + [last];
      CrossSplits(init, last, smrs);
      DisjointUnionSize(Cross(init, smrs), Row(last, smrs));
      OneMoreTimes(|init|, |smrs|);
    }
  }

  predicate Declared(count: Option<int>) {
    count.Some? && count.value != 0
  }

  function FromConfiguration(
      connectorCount: Option<int>, smrCount: Option<int>,
      observedConnectors: seq<string>, observedSmrs: seq<string>, basis: Basis): FrameTopology
    requires Declared(connectorCount) && Declared(smrCount)
  {
    var connectors := Labels(connectorCount.value, observedConnectors);
    var smrs := Labels(smrCount.value, observedSmrs);
    FrameTopology(Cross(connectors, smrs), connectors, smrs, basis, true)
  }

  function StabilityFloor(stability: real, groupTotal: nat): int {
    var share := (stability * groupTotal as real).Floor;
    if share > 1 then share else 1
  }

  function StablePositions(counts: map<Position, nat>, groupTotal: nat, stability: real): set<Position> {
    set p | p in counts && counts[p] >= StabilityFloor(stability, groupTotal) && p.IsAssigned()
  }

  function SetOfConnectors(ps: set<Position>): set<string> {
    set p | p in ps && p.connector != "" :: p.connector
  }

  function SetOfSmrs(ps: set<Position>): set<string> {
    set p | p in ps && p.smr != "" :: p.smr
  }

  function FromObservation(counts: map<Position, nat>, groupTotal: nat, stability: real): Option<FrameTopology> {
    var stable := StablePositions(counts, groupTotal, stability);
    if groupTotal == 0 || stable == {} then None
    else
      var connectors := SortedIdentities(SortedTexts(SetOfConnectors(stable)));
      var smrs := SortedIdentities(SortedTexts(SetOfSmrs(stable)));
      Some(FrameTopology(stable, connectors, smrs, OBSERVED_STABLE, stable == Cross(connectors, smrs)))
  }

  /** The documented precedence: charger, configured default, stable observation. */
  function Resolve(
      settings: Settings, observedConnectors: seq<string>, observedSmrs: seq<string>,
      counts: map<Position, nat>, groupTotal: nat): FrameTopology
  {
    if Declared(settings.chargerConnectors) && Declared(settings.chargerSmrs) then
      FromConfiguration(
        settings.chargerConnectors, settings.chargerSmrs, observedConnectors, observedSmrs, CHARGER_CONFIGURATION)
    else if Declared(settings.defaultConnectors) && Declared(settings.defaultSmrs) then
      FromConfiguration(
        settings.defaultConnectors, settings.defaultSmrs, observedConnectors, observedSmrs, CONFIGURED_DEFAULT)
    else
      var observed := FromObservation(counts, groupTotal, settings.stability);
      if observed.Some? then observed.value else FrameTopology({}, [], [], UNRESOLVED, false)
  }

  /** With positive declared counts the frame is exactly as large as declared. */
  lemma DeclaredFrameSize(
      connectorCount: int, smrCount: int,
      observedConnectors: seq<string>, observedSmrs: seq<string>, basis: Basis)
    requires connectorCount > 0 && smrCount > 0
    ensures var t := FromConfiguration(Some(connectorCount), Some(smrCount), observedConnectors, observedSmrs, basis);
            |t.positions| == connectorCount * smrCount
  {
    hide Labels, Cross;
    LabelsExact(connectorCount, observedConnectors);
    LabelsExact(smrCount, observedSmrs);
    CrossSize(Labels(connectorCount, observedConnectors), Labels(smrCount, observedSmrs));
  }

  // ----- topology is stable under repetition

  /** The topology a file resolves to. */
  function TopologyOf(settings: Settings, src: Source): FrameTopology {
    var n := |src.rows|;
    Resolve(settings, SortedTexts(ConnectorsSeen(src, n)), SortedTexts(SmrsSeen(src, n)),
            GroupCounts(Slots(src, n)), |GroupsOf(Slots(src, n))|)
  }

  ghost predicate SameNames(a: SourceRow, b: SourceRow) {
    Clean(a.connector) == Clean(b.connector) && Clean(a.smr) == Clean(b.smr)
  }

  /** Row k of one file names what row i of the other does and, if that one is assigned,
      stands at the same charger, time and position. */
  ghost predicate Repeats(src: Source, i: nat, other: Source, k: nat)
    requires i < |src.rows| && k < |other.rows|
  {
    && SameNames(src.rows[i], other.rows[k])
    && (Dispose(src, i).Assigned? ==> Dispose(other, k) == Dispose(src, i))
  }

  ghost predicate RepeatedIn(src: Source, i: nat, other: Source)
    requires i < |src.rows|
  {
    exists k: nat :: k < |other.rows| && Repeats(src, i, other, k)
  }

  /** Every row of one file is repeated somewhere in the other. */
  ghost predicate Covers(other: Source, src: Source) {
    forall i: nat :: i < |src.rows| ==> RepeatedIn(src, i, other)
  }

  lemma CoversSlots(other: Source, src: Source)
    requires Covers(other, src)
    ensures Slots(src, |src.rows|) <= Slots(other, |other.rows|)
  {
    hide Dispose, Clean, Position.IsAssigned;
    forall s | s in Slots(src, |src.rows|)
      ensures s in Slots(other, |other.rows|)
    {
      var i: nat :| i < |src.rows| && Dispose(src, i).Assigned? && s == (Dispose(src, i).key, PositionOf(src.rows[i]));
      assert RepeatedIn(src, i, other);
      var k: nat :| k < |other.rows| && Repeats(src, i, other, k);
      assert PositionOf(other.rows[k]) == PositionOf(src.rows[i]);
    }
  }

  lemma CoversNames(other: Source, src: Source)
    requires Covers(other, src)
    ensures ConnectorsSeen(src, |src.rows|) <= ConnectorsSeen(other, |other.rows|)
    ensures SmrsSeen(src, |src.rows|) <= SmrsSeen(other, |other.rows|)
  {
    hide Clean, Dispose;
    forall c | c in ConnectorsSeen(src, |src.rows|)
      ensures c in ConnectorsSeen(other, |other.rows|)
    {
      var i: nat :| i < |src.rows| && c == Clean(src.rows[i].connector);
      assert RepeatedIn(src, i, other);
      var k: nat :| k < |other.rows| && Repeats(src, i, other, k);
    }
    forall c | c in SmrsSeen(src, |src.rows|)
      ensures c in SmrsSeen(other, |other.rows|)
    {
      var i: nat :| i < |src.rows| && c == Clean(src.rows[i].smr);
      assert RepeatedIn(src, i, other);
      var k: nat :| k < |other.rows| && Repeats(src, i, other, k);
    }
  }

  /** Repeating and reordering rows, however often and wherever in the file, never
      changes what a frame is expected to contain. */
  lemma TopologyIgnoresRepeats(settings: Settings, src: Source, other: Source)
    requires Covers(other, src) && Covers(src, other)
    ensures TopologyOf(settings, other) == TopologyOf(settings, src)
  {
    hide Covers, Slots, ConnectorsSeen, SmrsSeen, Resolve, GroupCounts, GroupsOf, SortedTexts;
    CoversSlots(other, src);
    CoversSlots(src, other);
    CoversNames(other, src);
    CoversNames(src, other);
    assert Slots(src, |src.rows|) == Slots(other, |other.rows|);
    assert ConnectorsSeen(src, |src.rows|) == ConnectorsSeen(other, |other.rows|);
    assert SmrsSeen(src, |src.rows|) == SmrsSeen(other, |other.rows|);
  }
}
