/** Where each row of a file goes, in which order its groups come, and which positions its
    frames are expected to hold, each read off the file and the settings. */
module KeyFacts {
  import opened Sorting
  import opened Text
  import opened FrameModels
  import opened CanonicalSerializer
  import opened LogicalKeys
  import opened Topology
  import opened TimestampGroups
  import opened Reconstruction
  import opened Losslessness

  // ----- identities

  /** The first d characters are dashes, the others digits, and there is a digit. */
  ghost predicate DashesThenDigits(s: string, d: int) {
    && 0 <= d < |s|
    && (forall i :: 0 <= i < d ==> s[i] == '-') && forall i :: d <= i < |s| ==> '0' <= s[i] <= '9'
  }

  ghost predicate DashedNumber(s: string) {
    exists d :: DashesThenDigits(s, d)
  }

  lemma DashMore(s: string, d: int)
    requires s != "" && s[0] == '-'
    ensures DashesThenDigits(s, d + 1) <==> DashesThenDigits(s[1..], d)
    ensures !DashesThenDigits(s, 0)
  {
    var rest := s[1..];
    assert forall i :: 0 <= i < |rest| ==> rest[i] == s[i + 1];
    if DashesThenDigits(rest, d) {
      forall i | 0 <= i < d + 1
        ensures s[i] == '-'
      {
        assert i == 0 || s[i] == rest[i - 1];
      }
      forall i | d + 1 <= i < |s|
        ensures '0' <= s[i] <= '9'
      {
        assert s[i] == rest[i - 1];
      }
    }
  }

  lemma {:induction false} NumeralRead(s: string)
    ensures IsNumeral(s) <==> DashedNumber(s)
  {
    if s == "" || s[0] != '-' {
      if IsNumeral(s) {
        assert forall i :: 0 <= i < |s| ==> IsDigit(s[i]);
        assert DashesThenDigits(s, 0);
      }
      if d :| DashesThenDigits(s, d) {
        assert d == 0;
        assert forall i :: 0 <= i < |s| ==> IsDigit(s[i]);
      }
    } else {
      NumeralRead(s[1..]);
      DashMore(s, 0);
      if d :| DashesThenDigits(s[1..], d) {
        DashMore(s, d);
      }
      if d :| DashesThenDigits(s, d) {
        DashMore(s, d - 1);
      }
    }
  }

  /** The text is a whole number written with ".0". */
  ghost predicate Pointed(text: string, n: string) {
    DashedNumber(n) && text == n + ".0"
  }

  /** An identity field: empty when absent, else trimmed, and a whole number written with
      ".0" without that. */
  ghost predicate IdentityRead(value: Option<string>, identity: string) {
    match value
    case None => identity == ""
    case Some(s) => Pointed(Strip(s), identity) || (identity == Strip(s) && !exists n :: Pointed(Strip(s), n))
  }

  lemma CleanRead(value: Option<string>)
    ensures IdentityRead(value, Clean(value))
  {
    hide Strip, IsNumeral, DashedNumber;
    if value.Some? {
      var text := Strip(value.value);
      var n := |text|;
      if n >= 2 {
        NumeralRead(text[..n - 2]);
        assert text == text[..n - 2] + text[n - 2..];
      }
      forall m | Pointed(text, m)
        ensures n >= 2 && text[n - 2..] == ".0" && text[..n - 2] == m
      {
      }
    }
  }

  // ----- where a row goes

  /** What becomes of row i: undatable without a time; otherwise in the group of its
      charger, or the fallback, at that time, and assigned there when charger, connector and
      module are all known. */
  lemma DispositionRead(src: Source, i: nat)
    requires i < |src.rows|
    ensures var row, d := src.rows[i], Dispose(src, i);
            var dated := i < |src.times| && src.times[i].Some?;
            var charger := if Clean(row.charger) == "" then src.fallback else Clean(row.charger);
            && (d == Undatable <==> !dated)
            && (dated ==>
                  && d.key.charger == charger && d.key.time == src.times[i].value
                  && (d.Assigned? <==> charger != "" && Clean(row.connector) != "" && Clean(row.smr) != ""))
  {
    hide Clean;
  }

  lemma PositionRead(row: SourceRow)
    ensures var p := PositionOf(row);
            if Clean(row.connector) == "" || Clean(row.smr) == "" then p.connector == p.smr == ""
            else p.connector == Clean(row.connector) && p.smr == Clean(row.smr)
  {
    hide Clean;
  }

  // ----- order

  /** The texts agree on the first k characters, and then the first ends or has the lower
      character. */
  ghost predicate AgreeThenLess(a: string, b: string, k: int) {
    && 0 <= k <= |a| && k <= |b| && (forall i :: 0 <= i < k ==> a[i] == b[i])
    && (k == |a| || (k < |b| && a[k] < b[k]))
  }

  lemma AgreeMore(a: string, b: string, k: int)
    requires a != "" && b != "" && a[0] == b[0]
    ensures AgreeThenLess(a, b, k + 1) <==> AgreeThenLess(a[1..], b[1..], k)
    ensures !AgreeThenLess(a, b, 0)
  {
    var c, d := a[1..], b[1..];
    assert forall i :: 0 <= i < |c| ==> c[i] == a[i + 1];
    assert forall i :: 0 <= i < |d| ==> d[i] == b[i + 1];
    if AgreeThenLess(c, d, k) {
      forall i | 0 <= i < k + 1
        ensures a[i] == b[i]
      {
        assert i == 0 || (a[i] == c[i - 1] && b[i] == d[i - 1]);
      }
    }
  }

  /** Dictionary order. */
  lemma {:induction false} TextLeRead(a: string, b: string)
    ensures TextLe(a, b) <==> exists k :: AgreeThenLess(a, b, k)
  {
    if a == "" || b == "" || a[0] != b[0] {
      assert TextLe(a, b) ==> AgreeThenLess(a, b, 0);
      forall k | AgreeThenLess(a, b, k)
        ensures k == 0
      {
      }
    } else {
      TextLeRead(a[1..], b[1..]);
      AgreeMore(a, b, 0);
      if k :| AgreeThenLess(a[1..], b[1..], k) {
        AgreeMore(a, b, k);
      }
      if k :| AgreeThenLess(a, b, k) {
        AgreeMore(a, b, k - 1);
      }
    }
  }

  /** A file's groups come by time, and at one time by charger. */
  lemma KeysInOrder(keys: set<GroupKey>, i: nat, j: nat)
    requires i < j < |SortedKeys(keys)|
    ensures var a, b := SortedKeys(keys)[i], SortedKeys(keys)[j];
            a.time < b.time || (a.time == b.time && a.charger != b.charger && TextLe(a.charger, b.charger))
  {
    hide TextLe;
    assert KeyLe(SortedKeys(keys)[i], SortedKeys(keys)[j]);
  }

  /** These are the rows of a file with this destination, by number. */
  ghost predicate RowsHold(src: Source, rows: seq<RawRow>, d: Disposition, unassigned: bool) {
    && (forall n: nat :: HoldsNumber(rows, n) <==> n < |src.rows| && Dispose(src, n) == d)
    && forall r :: r in rows ==>
         && r.number < |src.rows| && r.unassigned == unassigned
         && r.position == PositionOf(src.rows[r.number]) && r.fingerprint == src.rows[r.number].fingerprint
  }

  ghost predicate GroupRead(src: Source, expected: set<Position>, g: TimestampGroup) {
    && RowsHold(src, g.rows, Assigned(g.key), false)
    && RowsHold(src, g.unassignedRows, Unassigned(g.key), true)
    && (g.rows != [] || g.unassignedRows != [])
    && g.expected == expected
    && (forall p :: p in g.occurrences <==> p in PositionsOf(g.rows))
    && forall p :: p in g.occurrences ==> g.occurrences[p] == CountAt(g.rows, p)
  }

  lemma AssignedHold(src: Source, key: GroupKey)
    ensures RowsHold(src, AssignedRows(src, |src.rows|, key), Assigned(key), false)
  {
    hide Dispose, PositionOf, CountAt, SourceIndexed, AssignedRows;
    AssignedRowsIndexed(src, |src.rows|, key);
    forall n: nat | n < |src.rows| && Dispose(src, n) == Assigned(key)
      ensures HoldsNumber(AssignedRows(src, |src.rows|, key), n)
    {
      var r := AssignedRow(src, |src.rows|, n);
    }
  }

  lemma UnassignedHold(src: Source, key: GroupKey)
    ensures RowsHold(src, UnassignedRows(src, |src.rows|, key), Unassigned(key), true)
  {
    hide Dispose, PositionOf, UnassignedRows;
    var rows := UnassignedRows(src, |src.rows|, key);
    forall r
      ensures r in rows
              <==> r.number < |src.rows| && Dispose(src, r.number) == Unassigned(key)
                   && r == RefAt(src, r.number, 0, true)
    {
      UnassignedMembers(src, |src.rows|, key, r);
    }
    forall n: nat | n < |src.rows| && Dispose(src, n) == Unassigned(key)
      ensures HoldsNumber(rows, n)
    {
      assert RefAt(src, n, 0, true) in rows;
    }
  }

  /** Each group of a file holds its own rows, assigned and not, and what is expected; the
      groups come by time and charger. */
  lemma GroupsRead(src: Source, expected: set<Position>, i: nat)
    requires i < |FileGroups(src, expected)|
    ensures var groups := FileGroups(src, expected);
            && GroupRead(src, expected, groups[i])
            && forall j :: 0 <= j < i ==>
                 var a, b := groups[j].key, groups[i].key;
                 a.time < b.time || (a.time == b.time && a.charger != b.charger && TextLe(a.charger, b.charger))
  {
    hide Dispose, SortedKeys, DatedKeys, AssignedRows, UnassignedRows, RowsHold, TextLe, CountAt, PositionsOf;
    var keys := SortedKeys(DatedKeys(src, |src.rows|));
    AssignedHold(src, keys[i]);
    UnassignedHold(src, keys[i]);
    assert keys[i] in keys;
    DatedKeyHolds(src, keys[i]);
    forall j | 0 <= j < i
      ensures var a, b := keys[j], keys[i];
              a.time < b.time || (a.time == b.time && a.charger != b.charger && TextLe(a.charger, b.charger))
    {
      KeysInOrder(DatedKeys(src, |src.rows|), j, i);
    }
  }

  lemma DatedKeyHolds(src: Source, key: GroupKey)
    requires key in DatedKeys(src, |src.rows|)
    ensures AssignedRows(src, |src.rows|, key) != [] || UnassignedRows(src, |src.rows|, key) != []
  {
    hide Dispose, AssignedRows, UnassignedRows;
    KeysOfRows(src, |src.rows|, key);
    var i :| 0 <= i < |src.rows| && !Dispose(src, i).Undatable? && Dispose(src, i).key == key;
    assert Dispose(src, i) == Assigned(key) || Dispose(src, i) == Unassigned(key);
  }

  // ----- labels

  lemma {:induction false} SelectedInOrder(
      s: seq<string>, p: string -> bool, le: (string, string) -> bool, i: nat, j: nat)
    requires i < j < |s| && p(s[i]) && p(s[j]) && Ascending(Select(s, p), le)
    ensures le(s[i], s[j])
  {
    var init := s[..|s| - 1];
    if j < |init| {
      var rest := Select(init, p);
      assert forall k :: 0 <= k < |rest| ==> rest[k] == Select(s, p)[k];
      SelectedInOrder(init, p, le, i, j);
    } else {
      SelectMembers(init, p);
      assert init[i] in Select(init, p);
      var k :| 0 <= k < |Select(init, p)| && Select(init, p)[k] == s[i];
      assert Select(s, p) == Select(init, p) + [s[j]];
      assert le(Select(s, p)[k], Select(s, p)[|Select(init, p)|]);
    }
  }

  predicate AllNumbers(items: seq<string>) {
    forall i :: 0 <= i < |items| ==> AllDigits(items[i])
  }

  /** Identities in order: by number when all are numbers, and as in a dictionary where
      numbers are equal or some is none. */
  lemma IdentitiesInOrder(values: seq<string>, i: nat, j: nat)
    requires i < j < |SortedIdentities(values)|
    ensures var a, b := SortedIdentities(values)[i], SortedIdentities(values)[j];
            if AllNumbers(values)
            then && AllDigits(a) && AllDigits(b)
                 && (NatValue(a) < NatValue(b) || (NatValue(a) == NatValue(b) && TextLe(a, b)))
            else TextLe(a, b)
  {
    hide TextLe, AllDigits, Sort, Select, NatValue;
    var items := SortedTexts(NonEmpty(values));
    NumbersAmong(values);
    IdentitiesListed(values);
    assert SortedIdentities(values)[i] in values && SortedIdentities(values)[j] in values;
    if AllNumbers(values) {
      StableByNumber(items, i, j);
    }
  }

  lemma NumbersAmong(values: seq<string>)
    ensures AllNumbers(SortedTexts(NonEmpty(values))) <==> AllNumbers(values)
  {
    var items := SortedTexts(NonEmpty(values));
    if AllNumbers(items) {
      forall i | 0 <= i < |values|
        ensures AllDigits(values[i])
      {
        assert values[i] != "" ==> values[i] in items;
      }
    }
    if AllNumbers(values) {
      forall i | 0 <= i < |items|
        ensures AllDigits(items[i])
      {
        assert items[i] in items;
        assert items[i] in values;
      }
    }
  }

  lemma NumericLeIsPreorder()
    ensures TotalPreorder(NumericLe)
  {
    hide NumericValue;
  }

  lemma SameNumbers(items: seq<string>, n: nat, same: string -> bool)
    requires forall v :: same(v) <==> NumericValue(v) == n
    ensures Sort(Select(items, same), NumericLe) == Select(items, same)
  {
    hide NumericValue, Sort, Select;
    var chosen := Select(items, same);
    SelectMembers(items, same);
    forall i, j | 0 <= i < j < |chosen|
      ensures NumericLe(chosen[i], chosen[j])
    {
      assert chosen[i] in chosen && chosen[j] in chosen;
    }
    SortOfAscending(chosen, NumericLe);
  }

  lemma StableByNumber(items: seq<string>, i: nat, j: nat)
    requires Ascending(items, TextLe) && i < j < |items|
    ensures var a, b := Sort(items, NumericLe)[i], Sort(items, NumericLe)[j];
            NumericValue(a) < NumericValue(b) || (NumericValue(a) == NumericValue(b) && TextLe(a, b))
  {
    hide NumericValue, TextLe, Sort, Select;
    var sorted := Sort(items, NumericLe);
    NumericLeIsPreorder();
    SortAscends(items, NumericLe);
    assert NumericLe(sorted[i], sorted[j]);
    if NumericValue(sorted[i]) == NumericValue(sorted[j]) {
      var same := (v: string) => NumericValue(v) == NumericValue(sorted[i]);
      SelectSort(items, same, NumericLe);
      SameNumbers(items, NumericValue(sorted[i]), same);
      SelectAscends(items, same, TextLe);
      SelectedInOrder(sorted, same, TextLe, i, j);
    }
  }

  /** The label is the m-th ordinal, and those before it are labels too. */
  ghost predicate LowestOrdinal(labels: seq<string>, v: string, m: nat) {
    m > 0 && v == NatText(m) && forall k: nat :: 0 < k < m ==> NatText(k) in labels
  }

  /** The labels of a declared count: the observed identities, filled up with the lowest
      ordinals not among them, or cut off after that many; a negative count cuts that many
      off the end. */
  lemma LabelsRead(declared: int, observed: seq<string>)
    requires declared != 0
    ensures var labels, identities := Labels(declared, observed), SortedIdentities(observed);
            && (declared < 0 ==>
                  labels == identities[..if |identities| + declared > 0 then |identities| + declared else 0])
            && (declared > 0 && identities == [] ==>
                  |labels| == declared && forall i :: 0 <= i < declared ==> labels[i] == NatText(i + 1))
            && (0 < |identities| < declared ==>
                  forall v :: v in labels && v !in observed ==> exists m: nat :: LowestOrdinal(labels, v, m))
  {
    hide SortedIdentities, NatText, Padded, LowestOrdinal;
    var labels, identities := Labels(declared, observed), SortedIdentities(observed);
    if declared > 0 {
      hide Ordinals;
      OrdinalsExact(declared);
    }
    IdentitiesListed(observed);
    if 0 < |identities| < declared {
      var padded := Padded(identities, declared, 1);
      PaddedExact(identities, declared, 1);
      IdentitiesListed(padded);
      forall v | v in labels && v !in observed
        ensures exists m: nat :: LowestOrdinal(labels, v, m)
      {
        var m := PaddedLowest(identities, declared, 1, v);
        LowestKept(padded, labels, v, m);
      }
    }
  }

  lemma LowestKept(padded: seq<string>, labels: seq<string>, v: string, m: nat)
    requires LowestOrdinal(padded, v, m) && forall x :: x in padded ==> x in labels
    ensures LowestOrdinal(labels, v, m)
  {
    hide NatText;
  }

  lemma {:induction false} PaddedLowest(padded: seq<string>, declared: int, ordinal: nat, v: string) returns (m: nat)
    requires v in Padded(padded, declared, ordinal) && v !in padded
    requires ordinal > 0 && forall k: nat :: 0 < k < ordinal ==> NatText(k) in padded
    ensures LowestOrdinal(Padded(padded, declared, ordinal), v, m)
    decreases declared - |padded|, Reachable(Members(padded), "", ordinal)
  {
    hide NatText;
    CounterAdvances(Members(padded), "", ordinal);
    assert "" + NatText(ordinal) == NatText(ordinal);
    if NatText(ordinal) in padded {
      m := PaddedLowest(padded, declared, ordinal + 1, v);
    } else if v != NatText(ordinal) {
      m := PaddedLowest(padded + [NatText(ordinal)], declared, ordinal + 1, v);
    } else {
      m := ordinal;
      PaddedKeeps(padded, declared, ordinal);
    }
  }

  lemma {:induction false} PaddedKeeps(padded: seq<string>, declared: int, ordinal: nat)
    ensures padded <= Padded(padded, declared, ordinal)
    decreases declared - |padded|, Reachable(Members(padded), "", ordinal)
  {
    hide NatText;
    if |padded| < declared {
      CounterAdvances(Members(padded), "", ordinal);
      assert "" + NatText(ordinal) == NatText(ordinal);
      if NatText(ordinal) in padded {
        PaddedKeeps(padded, declared, ordinal + 1);
      } else {
        PaddedKeeps(padded + [NatText(ordinal)], declared, ordinal + 1);
      }
    }
  }

  // ----- the topology

  predicate Given(count: Option<int>) {
    count != None && count != Some(0)
  }

  /** Which evidence a topology rests on: the charger's own counts when both are declared
      and not zero, else the default ones likewise, else positions seen often enough. */
  ghost predicate BasisRead(settings: Settings, counts: map<Position, nat>, groupTotal: nat, basis: Basis) {
    var own := Given(settings.chargerConnectors) && Given(settings.chargerSmrs);
    var default := Given(settings.defaultConnectors) && Given(settings.defaultSmrs);
    var seen := groupTotal > 0 && exists p :: Stable(counts, groupTotal, settings.stability, p);
    && (basis == CHARGER_CONFIGURATION <==> own)
    && (basis == CONFIGURED_DEFAULT <==> !own && default)
    && (basis == OBSERVED_STABLE <==> !own && !default && seen)
    && (basis == UNRESOLVED <==> !own && !default && !seen)
  }

  /** Seen in at least one group, and in no fewer than the whole number of groups that the
      share asked for amounts to, cut off. */
  ghost predicate Stable(counts: map<Position, nat>, groupTotal: nat, stability: real, p: Position) {
    && p in counts && p.connector != "" && p.smr != "" && counts[p] > 0
    && counts[p] as real + 1.0 > stability * groupTotal as real
  }

  /** The connectors and modules of these positions, and whether each has each. */
  ghost predicate NamesRead(ps: set<Position>, connectors: seq<string>, smrs: seq<string>, full: bool) {
    && (forall c :: c in connectors <==> exists p :: p in ps && p.connector == c)
    && (forall s :: s in smrs <==> exists p :: p in ps && p.smr == s)
    && (full <==> forall p, q :: p in ps && q in ps ==> Position(p.connector, q.smr) in ps)
  }

  /** The expected positions of a topology on this basis. */
  ghost predicate PositionsRead(
      settings: Settings, connectors: seq<string>, smrs: seq<string>, counts: map<Position, nat>, groupTotal: nat,
      t: FrameTopology)
  {
    match t.basis
    case CHARGER_CONFIGURATION =>
      && settings.chargerConnectors.Some? && settings.chargerSmrs.Some? && t.isFullMatrix
      && t.connectors == Labels(settings.chargerConnectors.value, connectors)
      && t.smrs == Labels(settings.chargerSmrs.value, smrs)
      && forall p :: p in t.positions <==> p.connector in t.connectors && p.smr in t.smrs
    case CONFIGURED_DEFAULT =>
      && settings.defaultConnectors.Some? && settings.defaultSmrs.Some? && t.isFullMatrix
      && t.connectors == Labels(settings.defaultConnectors.value, connectors)
      && t.smrs == Labels(settings.defaultSmrs.value, smrs)
      && forall p :: p in t.positions <==> p.connector in t.connectors && p.smr in t.smrs
    case OBSERVED_STABLE =>
      && (forall p :: p in t.positions <==> Stable(counts, groupTotal, settings.stability, p))
      && NamesRead(t.positions, t.connectors, t.smrs, t.isFullMatrix)
    case UNRESOLVED => t.positions == {} && t.connectors == [] && t.smrs == [] && !t.isFullMatrix
  }

  lemma StableIff(counts: map<Position, nat>, groupTotal: nat, stability: real, p: Position)
    ensures p in StablePositions(counts, groupTotal, stability) <==> Stable(counts, groupTotal, stability, p)
  {
    var share := stability * groupTotal as real;
    assert share.Floor as real <= share < share.Floor as real + 1.0;
  }

  lemma StablesAre(counts: map<Position, nat>, groupTotal: nat, stability: real)
    ensures forall p :: p in StablePositions(counts, groupTotal, stability)
                        <==> Stable(counts, groupTotal, stability, p)
  {
    hide StablePositions, Stable;
    forall p
      ensures p in StablePositions(counts, groupTotal, stability) <==> Stable(counts, groupTotal, stability, p)
    {
      StableIff(counts, groupTotal, stability, p);
    }
  }

  lemma FullIff(ps: set<Position>, connectors: seq<string>, smrs: seq<string>)
    requires forall c :: c in connectors <==> exists p :: p in ps && p.connector == c
    requires forall s :: s in smrs <==> exists p :: p in ps && p.smr == s
    ensures ps == Cross(connectors, smrs) <==>
            forall p, q :: p in ps && q in ps ==> Position(p.connector, q.smr) in ps
  {
    CrossHolds(connectors, smrs);
    hide Cross;
    if forall p, q :: p in ps && q in ps ==> Position(p.connector, q.smr) in ps {
      forall r | r in Cross(connectors, smrs)
        ensures r in ps
      {
        var p :| p in ps && p.connector == r.connector;
        var q :| q in ps && q.smr == r.smr;
        assert r == Position(p.connector, q.smr);
      }
    }
  }

  lemma CrossHolds(connectors: seq<string>, smrs: seq<string>)
    ensures forall p :: p in Cross(connectors, smrs) <==> p.connector in connectors && p.smr in smrs
  {
  }

  /** The names, and their cross product, of the stable positions. */
  lemma NamedRead(ps: set<Position>, connectors: seq<string>, smrs: seq<string>)
    requires forall p :: p in ps ==> p.connector != "" && p.smr != ""
    requires forall c :: c in connectors <==> c in SetOfConnectors(ps)
    requires forall s :: s in smrs <==> s in SetOfSmrs(ps)
    ensures NamesRead(ps, connectors, smrs, ps == Cross(connectors, smrs))
  {
    hide SetOfConnectors, SetOfSmrs, Cross;
    NamesOf(ps);
    FullIff(ps, connectors, smrs);
  }

  lemma ObservedRead(settings: Settings, counts: map<Position, nat>, groupTotal: nat)
    ensures var observed := FromObservation(counts, groupTotal, settings.stability);
            && (observed.Some? <==> groupTotal > 0 && exists p :: Stable(counts, groupTotal, settings.stability, p))
            && (observed.Some? ==>
                  && observed.value.basis == OBSERVED_STABLE
                  && PositionsRead(settings, [], [], counts, groupTotal, observed.value))
  {
    hide StablePositions, Stable, NamesRead;
    var stable := StablePositions(counts, groupTotal, settings.stability);
    StablesAre(counts, groupTotal, settings.stability);
    ObservedIs(counts, groupTotal, settings.stability);
    hide FromObservation;
    if stable != {} {
      var p := Pick(stable);
      assert Stable(counts, groupTotal, settings.stability, p);
    }
  }

  lemma ObservedIs(counts: map<Position, nat>, groupTotal: nat, stability: real)
    ensures var observed, stable :=
              FromObservation(counts, groupTotal, stability), StablePositions(counts, groupTotal, stability);
            && (observed.Some? <==> groupTotal > 0 && stable != {})
            && (observed.Some? ==>
                  && observed.value.basis == OBSERVED_STABLE && observed.value.positions == stable
                  && NamesRead(
                       stable, observed.value.connectors, observed.value.smrs, observed.value.isFullMatrix))
  {
    hide StablePositions, SortedIdentities, Cross, SetOfConnectors, SetOfSmrs, NamesRead;
    var stable := StablePositions(counts, groupTotal, stability);
    var connectors := SortedIdentities(SortedTexts(SetOfConnectors(stable)));
    var smrs := SortedIdentities(SortedTexts(SetOfSmrs(stable)));
    IdentitiesListed(SortedTexts(SetOfConnectors(stable)));
    IdentitiesListed(SortedTexts(SetOfSmrs(stable)));
    StableNamed(counts, groupTotal, stability);
    NoneUnnamed(stable);
    NamedRead(stable, connectors, smrs);
  }

  lemma NoneUnnamed(ps: set<Position>)
    ensures "" !in SetOfConnectors(ps) && "" !in SetOfSmrs(ps)
  {
  }

  lemma StableNamed(counts: map<Position, nat>, groupTotal: nat, stability: real)
    ensures forall p :: p in StablePositions(counts, groupTotal, stability) ==> p.connector != "" && p.smr != ""
  {
  }

  lemma NamesOf(ps: set<Position>)
    requires forall p :: p in ps ==> p.connector != "" && p.smr != ""
    ensures forall c :: c in SetOfConnectors(ps) <==> exists p :: p in ps && p.connector == c
    ensures forall s :: s in SetOfSmrs(ps) <==> exists p :: p in ps && p.smr == s
  {
  }

  /** What a resolved topology rests on and expects. */
  lemma ResolvedRead(
      settings: Settings, connectors: seq<string>, smrs: seq<string>, counts: map<Position, nat>, groupTotal: nat)
    ensures var t := Resolve(settings, connectors, smrs, counts, groupTotal);
            && BasisRead(settings, counts, groupTotal, t.basis)
            && PositionsRead(settings, connectors, smrs, counts, groupTotal, t)
  {
    hide Labels, FromObservation, Stable, Cross, NamesRead;
    ObservedRead(settings, counts, groupTotal);
    var t := Resolve(settings, connectors, smrs, counts, groupTotal);
    CrossHolds(t.connectors, t.smrs);
    assert forall count :: Declared(count) <==> Given(count);
  }

  // ----- the evidence of a file

  /** Row i is assigned to this group at this position. */
  ghost predicate StandsAt(src: Source, i: nat, key: GroupKey, p: Position) {
    i < |src.rows| && Dispose(src, i) == Assigned(key) && PositionOf(src.rows[i]) == p
  }

  /** A position counts once for each group that has a row at it. */
  lemma EvidenceRead(src: Source, key: GroupKey, p: Position)
    ensures var slots := Slots(src, |src.rows|);
            && (key in GroupsOf(slots) <==> exists i: nat, q :: StandsAt(src, i, key, q))
            && (key in GroupsWith(slots, p) <==> exists i: nat :: StandsAt(src, i, key, p))
            && (p in GroupCounts(slots) <==> exists i: nat, k :: StandsAt(src, i, k, p))
            && (p in GroupCounts(slots) ==> GroupCounts(slots)[p] == |GroupsWith(slots, p)|)
  {
    hide Dispose, PositionOf;
    var slots := Slots(src, |src.rows|);
    forall k, q
      ensures (k, q) in slots <==> exists i: nat :: StandsAt(src, i, k, q)
    {
      SlotRead(src, k, q);
    }
    hide Slots, StandsAt;
    GroupsNamed(slots, key, p);
  }

  lemma GroupsNamed(slots: set<(GroupKey, Position)>, key: GroupKey, p: Position)
    ensures key in GroupsOf(slots) <==> exists q :: (key, q) in slots
    ensures key in GroupsWith(slots, p) <==> (key, p) in slots
    ensures p in GroupCounts(slots) <==> exists k :: (k, p) in slots
  {
  }

  lemma SlotRead(src: Source, key: GroupKey, p: Position)
    ensures (key, p) in Slots(src, |src.rows|) <==> exists i: nat :: StandsAt(src, i, key, p)
  {
    hide Dispose, PositionOf;
    if i: nat :| StandsAt(src, i, key, p) {
      assert (Dispose(src, i).key, PositionOf(src.rows[i])) in Slots(src, |src.rows|);
    }
    if (key, p) in Slots(src, |src.rows|) {
      var i :| && 0 <= i < |src.rows| && Dispose(src, i).Assigned?
               && (key, p) == (Dispose(src, i).key, PositionOf(src.rows[i]));
      assert StandsAt(src, i, key, p);
    }
  }

  /** The rows with a digest that an earlier row has. */
  function RepeatedRows(src: Source, n: nat): set<nat> {
    set i: nat | i < n && i < |src.rows| && exists j :: 0 <= j < i && src.rows[j].fingerprint == src.rows[i].fingerprint
  }

  lemma {:induction false} RepeatsRead(src: Source, n: nat)
    requires n <= |src.rows|
    ensures LogicalKeys.Repeats(src, n) == |RepeatedRows(src, n)|
  {
    if n == 0 {
      assert RepeatedRows(src, 0) == {};
    } else {
      RepeatsRead(src, n - 1);
      var again := exists j :: 0 <= j < n - 1 && src.rows[j].fingerprint == src.rows[n - 1].fingerprint;
      assert RepeatedRows(src, n) == RepeatedRows(src, n - 1) + if again then {n - 1} else {};
      assert n - 1 !in RepeatedRows(src, n - 1);
    }
  }
}
