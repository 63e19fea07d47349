/** Field identity from an already split header row. */
module HeaderParser {
  import opened Sorting
  import opened Text
  import opened HeaderNames

  /** Why a person should confirm a field, if at all. */
  datatype Review = NotNeeded | Repeated(total: nat) | Collides(wanted: string)

  datatype HeaderField = HeaderField(
    position: nat,
    name: string,
    occurrence: nat,
    canonical: string,
    duplicate: bool,
    review: Review)

  datatype HeaderResult =
    | HeaderParseError
    | Header(fields: seq<HeaderField>, joined: string, duplicates: map<string, nat>, emptyNames: nat)

  const FINGERPRINT_SEPARATOR := '\U{1F}'

  // ----- cleaned names

  function CleanName(row: seq<string>, k: nat): string
    requires k < |row|
  {
    if k == 0 then StripBom(Strip(row[0])) else Strip(row[k])
  }

  function CleanUpTo(row: seq<string>, n: nat): (names: seq<string>)
    requires n <= |row|
    ensures |names| == n
  {
    if n == 0 then [] else CleanUpTo(row, n - 1) + [CleanName(row, n - 1)]
  }

  function Cleaned(row: seq<string>): (names: seq<string>)
    ensures |names| == |row|
  {
    CleanUpTo(row, |row|)
  }

  function CountName(names: seq<string>, name: string): nat {
    if names == [] then 0
    else CountName(names[..|names| - 1], name) + if names[|names| - 1] == name then 1 else 0
  }

  /** Which occurrence of its raw name the k-th field is, from one. */
  function Occurrence(names: seq<string>, k: nat): nat
    requires k < |names|
  {
    CountName(names[..k], names[k]) + 1
  }

  function NumberedName(base: string, occurrence: nat): string {
    base + "_occurrence_" + NatText(occurrence)
  }

  /** The canonical name a field would have if no other field had taken it. */
  function Wanted(names: seq<string>, k: nat): string
    requires k < |names|
  {
    var base := Canonicalise(names[k], k);
    if Occurrence(names, k) > 1 then NumberedName(base, Occurrence(names, k)) else base
  }

  // ----- the suffix search

  /** The first of `prefix + k`, `prefix + (k + 1)`, ... not in use. */
  ghost function FirstFree(used: set<string>, prefix: string, k: nat): (name: string)
    ensures name !in used
    decreases Reachable(used, prefix, k)
  {
    CounterAdvances(used, prefix, k);
    if prefix + NatText(k) in used then FirstFree(used, prefix, k + 1) else prefix + NatText(k)
  }

  ghost function FreeName(used: set<string>, wanted: string): (name: string)
    ensures name !in used
  {
    if wanted in used then FirstFree(used, wanted + "_", 2) else wanted
  }

  /** The suffix found is the least from `k` on whose name is free. */
  lemma {:induction false} FirstFreeIsLeast(used: set<string>, prefix: string, k: nat) returns (m: nat)
    ensures k <= m && FirstFree(used, prefix, k) == prefix + NatText(m)
    ensures forall i: nat :: k <= i < m ==> prefix + NatText(i) in used
    decreases Reachable(used, prefix, k)
  {
    hide Reachable, NatText;
    CounterAdvances(used, prefix, k);
    if prefix + NatText(k) in used {
      m := FirstFreeIsLeast(used, prefix, k + 1);
    } else {
      m := k;
    }
  }

  // ----- the fields

  /** The canonical names of the first `n` fields. */
  ghost function Canonicals(names: seq<string>, n: nat): (r: seq<string>)
    requires n <= |names|
    ensures |r| == n
  {
    if n == 0 then []
    else
      var before := Canonicals(names, n - 1);
      before + [FreeName(Members(before), Wanted(names, n - 1))]
  }

  ghost function ReviewOf(names: seq<string>, k: nat): Review
    requires k < |names|
  {
    if Wanted(names, k) in Canonicals(names, k) then Collides(Wanted(names, k))
    else if Occurrence(names, k) > 1 then Repeated(CountName(names, names[k]))
    else NotNeeded
  }

  ghost function FieldAt(names: seq<string>, k: nat): HeaderField
    requires k < |names|
  {
    HeaderField(
      k, names[k], Occurrence(names, k), Canonicals(names, k + 1)[k],
      CountName(names, names[k]) > 1, ReviewOf(names, k))
  }

  ghost function FieldsOf(names: seq<string>, n: nat): (r: seq<HeaderField>)
    requires n <= |names|
    ensures |r| == n
  {
    if n == 0 then [] else FieldsOf(names, n - 1) + [FieldAt(names, n - 1)]
  }

  // ----- the loops

  ghost predicate Counts(counter: map<string, nat>, names: seq<string>) {
    forall name :: (name in counter <==> name in names) && (name in counter ==> counter[name] == CountName(names, name))
  }

  lemma CountNamePush(names: seq<string>, last: string, name: string)
    ensures CountName(names + [last], name) == CountName(names, name) + if last == name then 1 else 0
  {
    assert (names + [last])[..|names|] == names;
  }

  lemma {:induction false} CountNameZero(names: seq<string>, name: string)
    ensures CountName(names, name) == 0 <==> name !in names
  {
    if names != [] {
      var init, last := names[..|names| - 1], names[|names| - 1];
      CountNameZero(init, name);
      assert names == init + [last];
    }
  }

  lemma CounterPush(counter: map<string, nat>, names: seq<string>, last: string)
    requires Counts(counter, names)
    ensures Counts(counter[last := (if last in counter then counter[last] else 0) + 1], names + [last])
  {
    hide CountName;
    forall name
      ensures CountName(names + [last], name) == CountName(names, name) + if last == name then 1 else 0
      ensures name !in names ==> CountName(names, name) == 0
    {
      CountNamePush(names, last, name);
      CountNameZero(names, name);
    }
  }

  /** `Counter(names)`. */
  method Count(names: seq<string>) returns (counter: map<string, nat>)
    ensures Counts(counter, names)
  {
    hide Counts;
    counter := map[];
    assert Counts(counter, names[..0]) by {
      CountsNothing(names[..0]);
    }
    for i := 0 to |names|
      invariant Counts(counter, names[..i])
    {
      CounterPush(counter, names[..i], names[i]);
      assert names[..i + 1] == names[..i] + [names[i]];
      counter := counter[names[i] := (if names[i] in counter then counter[names[i]] else 0) + 1];
    }
    assert names[..|names|] == names;
  }

  lemma CountsNothing(names: seq<string>)
    requires names == []
    ensures Counts(map[], names)
  {
  }

  method Clean(row: seq<string>) returns (names: seq<string>, emptyNames: nat)
    ensures names == Cleaned(row)
    ensures emptyNames == CountName(names, "")
  {
    hide Strip, StripBom, CountName;
    names := [];
    emptyNames := 0;
    CountNameZero([], "");
    for index := 0 to |row|
      invariant names == CleanUpTo(row, index)
      invariant emptyNames == CountName(names, "")
    {
      var name := Strip(row[index]);
      if index == 0 {
        name := StripBom(name);
      }
      CountNamePush(names, name, "");
      if name == "" {
        emptyNames := emptyNames + 1;
      }
      names := names + [name];
    }
  }

  /** The first name free for a field that wants one already taken. */
  method Disambiguate(used: set<string>, wanted: string) returns (canonical: string)
    requires wanted in used
    ensures canonical == FreeName(used, wanted)
  {
    hide Reachable, NatText;
    var suffix := 2;
    while wanted + "_" + NatText(suffix) in used
      invariant FreeName(used, wanted) == FirstFree(used, wanted + "_", suffix)
      decreases Reachable(used, wanted + "_", suffix)
    {
      CounterAdvances(used, wanted + "_", suffix);
      suffix := suffix + 1;
    }
    canonical := wanted + "_" + NatText(suffix);
  }

  /** One field, given what the fields before it have used. */
  method NextField(names: seq<string>, k: nat, totals: map<string, nat>, seen: nat, used: set<string>)
    returns (field: HeaderField)
    requires k < |names|
    requires Counts(totals, names)
    requires seen == Occurrence(names, k)
    requires used == Members(Canonicals(names, k))
    ensures field == FieldAt(names, k)
  {
    hide Canonicalise, CountName, FreeName, NatText;
    var name := names[k];
    assert name in names;
    var duplicate := totals[name] > 1;
    var canonical := Canonicalise(name, k);
    var review := NotNeeded;
    OccurrenceBounded(names, k);
    if duplicate && seen > 1 {
      canonical := NumberedName(canonical, seen);
      review := Repeated(totals[name]);
    }
    assert canonical == Wanted(names, k);
    FreeNameKeeps(used, canonical);
    if canonical in used {
      review := Collides(canonical);
      canonical := Disambiguate(used, canonical);
    }
    field := HeaderField(k, name, seen, canonical, duplicate, review);
  }

  lemma FreeNameKeeps(used: set<string>, wanted: string)
    ensures wanted !in used ==> FreeName(used, wanted) == wanted
  {
  }

  /** The parse of a header row: empty rows are an error, every other row gives each
      position its field. */
  method ParseHeader(row: seq<string>) returns (result: HeaderResult)
    ensures row == [] ==> result == HeaderParseError
    ensures row != [] ==>
              && result.Header?
              && result.fields == FieldsOf(Cleaned(row), |row|)
              && result.joined == Join(FINGERPRINT_SEPARATOR, Cleaned(row))
              && result.emptyNames == CountName(Cleaned(row), "")
              && forall name ::
                   (name in result.duplicates <==> CountName(Cleaned(row), name) > 1)
                   && (name in result.duplicates ==> result.duplicates[name] == CountName(Cleaned(row), name))
  {
    hide CountName, Cleaned;
    if row == [] {
      return HeaderParseError;
    }
    var names, emptyNames := Clean(row);
    var totals := Count(names);
    var duplicates := map name | name in totals && totals[name] > 1 :: totals[name];
    forall name
      ensures CountName(names, name) > 1 ==> name in totals
    {
      CountNameZero(names, name);
    }
    var fields := AssignFields(names, totals);
    result := Header(fields, Join(FINGERPRINT_SEPARATOR, names), duplicates, emptyNames);
  }

  method AssignFields(names: seq<string>, totals: map<string, nat>) returns (fields: seq<HeaderField>)
    requires Counts(totals, names)
    ensures fields == FieldsOf(names, |names|)
  {
    hide Counts, CountName, FreeName, Wanted, ReviewOf;
    fields := [];
    var seen: map<string, nat> := map[];
    var used := {};
    assert Counts(seen, names[..0]) by {
      CountsNothing(names[..0]);
    }
    for k := 0 to |names|
      invariant fields == FieldsOf(names, k)
      invariant Counts(seen, names[..k])
      invariant used == Members(Canonicals(names, k))
    {
      CounterPush(seen, names[..k], names[k]);
      assert names[..k + 1] == names[..k] + [names[k]];
      SeenIsOccurrence(seen, names, k);
      seen := seen[names[k] := (if names[k] in seen then seen[names[k]] else 0) + 1];
      var field := NextField(names, k, totals, seen[names[k]], used);
      MembersPush(Canonicals(names, k), field.canonical);
      used := used + {field.canonical};
      fields := fields + [field];
    }
  }

  lemma SeenIsOccurrence(seen: map<string, nat>, names: seq<string>, k: nat)
    requires k < |names| && Counts(seen, names[..k])
    ensures (if names[k] in seen then seen[names[k]] else 0) + 1 == Occurrence(names, k)
  {
    CountNameZero(names[..k], names[k]);
  }

  lemma MembersPush(names: seq<string>, last: string)
    ensures Members(names + [last]) == Members(names) + {last}
  {
  }

  // ----- occurrences

  lemma {:induction false} CountNameGrows(names: seq<string>, k: nat, name: string)
    requires k <= |names|
    ensures CountName(names[..k], name) <= CountName(names, name)
  {
    if k == |names| {
      assert names[..k] == names;
    } else {
      var init := names[..|names| - 1];
      CountNameGrows(init, k, name);
      assert init[..k] == names[..k];
    }
  }

  lemma OccurrenceBounded(names: seq<string>, k: nat)
    requires k < |names|
    ensures 1 <= Occurrence(names, k) <= CountName(names, names[k])
  {
    hide CountName;
    CountNamePush(names[..k], names[k], names[k]);
    assert names[..k + 1] == names[..k] + [names[k]];
    CountNameGrows(names, k + 1, names[k]);
  }

  /** Raw name and occurrence identify a field. */
  lemma IdentitiesDiffer(names: seq<string>, i: nat, j: nat)
    requires i < j < |names|
    ensures names[i] == names[j] ==> Occurrence(names, i) < Occurrence(names, j)
  {
    hide CountName;
    var prefix := names[..j];
    OccurrenceBounded(prefix, i);
    assert prefix[..i] == names[..i];
  }

  /** Every occurrence from one to the count of a name is some field's. */
  lemma {:induction false} OccurrencesReached(names: seq<string>, name: string, occurrence: nat) returns (k: nat)
    requires 1 <= occurrence <= CountName(names, name)
    ensures k < |names| && names[k] == name && Occurrence(names, k) == occurrence
  {
    var n := |names| - 1;
    if occurrence <= CountName(names[..n], name) {
      k := OccurrencesReached(names[..n], name, occurrence);
      assert names[..n][..k] == names[..k];
    } else {
      k := n;
    }
  }

  // ----- canonical names

  lemma {:induction false} CanonicalsPrefix(names: seq<string>, k: nat, n: nat)
    requires k <= n <= |names|
    ensures Canonicals(names, n)[..k] == Canonicals(names, k)
  {
    hide FreeName, Wanted;
    if k < n {
      CanonicalsPrefix(names, k, n - 1);
      assert Canonicals(names, n)[..k] == Canonicals(names, n - 1)[..k];
    }
  }

  /** No two positions share a canonical name. */
  lemma CanonicalNamesDistinct(names: seq<string>, i: nat, j: nat)
    requires i < j < |names|
    ensures FieldAt(names, i).canonical != FieldAt(names, j).canonical
  {
    hide FreeName, Wanted, ReviewOf;
    CanonicalsPrefix(names, i + 1, j);
    assert Canonicals(names, j)[i] == Canonicals(names, i + 1)[i];
    assert Canonicals(names, j)[i] in Canonicals(names, j);
  }

  /** Only a field's own raw name and the columns before it decide its canonical name. */
  lemma {:induction false} CanonicalsIgnoreLaterColumns(names: seq<string>, more: seq<string>, n: nat)
    requires n <= |names|
    ensures Canonicals(names + more, n) == Canonicals(names, n)
  {
    hide FreeName, NumberedName, Canonicalise;
    if n > 0 {
      CanonicalsIgnoreLaterColumns(names, more, n - 1);
      assert (names + more)[..n - 1] == names[..n - 1];
    }
  }

  lemma FreeNameLonger(used: set<string>, wanted: string)
    ensures wanted in used ==> |FreeName(used, wanted)| > |wanted|
  {
    hide FirstFree;
    if wanted in used {
      var m := FirstFreeIsLeast(used, wanted + "_", 2);
    }
  }

  /** A field is flagged for review exactly when its name is not simply the mechanical
      form of its raw header. */
  lemma ReviewIffRenamed(names: seq<string>, k: nat)
    requires k < |names|
    ensures FieldAt(names, k).review != NotNeeded <==> FieldAt(names, k).canonical != Canonicalise(names[k], k)
  {
    hide Canonicalise, FreeName;
    var before := Canonicals(names, k);
    FreeNameLonger(Members(before), Wanted(names, k));
    FreeNameKeeps(Members(before), Wanted(names, k));
  }

  lemma NumberedIsSnake(base: string, occurrence: nat)
    requires Snake(base)
    ensures Snake(NumberedName(base, occurrence))
  {
    hide Words, NatText;
    DigitsAreWords(occurrence);
    assert Words("occurrence") by {
      OccurrenceIsWord();
    }
    WordsJoin(base, "occurrence");
    WordsJoin(base + "_" + "occurrence", NatText(occurrence));
    assert base + "_" + "occurrence" + "_" + NatText(occurrence) == NumberedName(base, occurrence);
  }

  lemma OccurrenceIsWord()
    ensures Words("occurrence")
  {
  }

  lemma FreeNameIsSnake(used: set<string>, wanted: string)
    requires Snake(wanted)
    ensures Snake(FreeName(used, wanted))
  {
    hide Words, NatText, FirstFree;
    if wanted in used {
      var m := FirstFreeIsLeast(used, wanted + "_", 2);
      DigitsAreWords(m);
      WordsJoin(wanted, NatText(m));
    }
  }

  /** Every canonical name is an identifier, renamed or not. */
  lemma CanonicalNamesAreSnake(names: seq<string>, k: nat)
    requires k < |names|
    ensures Snake(FieldAt(names, k).canonical)
  {
    hide Canonicalise, FreeName, Snake, NumberedName, ReviewOf, CountName;
    CanonicalIsSnake(names[k], k);
    var base := Canonicalise(names[k], k);
    NumberedIsSnake(base, Occurrence(names, k));
    FreeNameIsSnake(Members(Canonicals(names, k)), Wanted(names, k));
  }

  // ----- the fingerprint

  /** Headers whose names hold no separator share a fingerprint only when they are the
      same names in the same order. */
  lemma FingerprintIdentifies(a: seq<string>, b: seq<string>)
    requires a != [] && b != []
    requires FreeOf(FINGERPRINT_SEPARATOR, a) && FreeOf(FINGERPRINT_SEPARATOR, b)
    ensures Join(FINGERPRINT_SEPARATOR, a) == Join(FINGERPRINT_SEPARATOR, b) <==> a == b
  {
    JoinInjective(FINGERPRINT_SEPARATOR, a, b);
  }

  lemma {:induction false} JoinSplit(sep: char, before: seq<string>, x: string, y: string, after: seq<string>)
    ensures Join(sep, before + [x + [sep] + y] + after) == Join(sep, before + [x, y] + after)
  {
    if before == [] {
      var whole, parts := [x + [sep] + y] + after, [x, y] + after;
      assert before + [x + [sep] + y] + after == whole && before + [x, y] + after == parts;
      assert whole[1..] == after && parts[1..] == [y] + after && parts[1..][1..] == after;
      if after == [] {
        assert [x] + [y] + after == parts;
      }
    } else {
      var rest := before[1..];
      JoinSplit(sep, rest, x, y, after);
      assert (before + [x + [sep] + y] + after)[1..] == rest + [x + [sep] + y] + after;
      assert (before + [x, y] + after)[1..] == rest + [x, y] + after;
    }
  }
}
