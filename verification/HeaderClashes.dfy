/** When a header's fingerprint identifies it among the headers that parsing yields. */
module HeaderClashes {
  import opened Text
  import opened HeaderNames
  import opened HeaderParser

  const SEP := FINGERPRINT_SEPARATOR

  // ----- what cleaning yields

  /** The first name of a header loses byte order marks, which may bare a space. */
  predicate CleanFirst(s: string) {
    EndsClean(s) && (s == "" || s[0] != BOM)
  }

  predicate CleanNames(names: seq<string>) {
    forall k :: 0 <= k < |names| ==> if k == 0 then CleanFirst(names[k]) else Trimmed(names[k])
  }

  lemma {:induction false} StripBomCleans(s: string)
    requires EndsClean(s)
    ensures CleanFirst(StripBom(s))
  {
    if s != [] && s[0] == BOM {
      StripBomCleans(s[1..]);
    }
  }

  lemma {:induction false} CleanedShape(row: seq<string>, n: nat)
    requires n <= |row|
    ensures forall k :: 0 <= k < n ==> CleanUpTo(row, n)[k] == CleanName(row, k)
  {
    if n > 0 {
      CleanedShape(row, n - 1);
    }
  }

  /** A name list comes out of cleaning exactly when the first name starts with no mark
      and ends with no space, and all others neither start nor end with one. */
  lemma CleanNamesIff(names: seq<string>)
    ensures CleanNames(names) <==> exists row :: Cleaned(row) == names
  {
    hide Strip, StripBom;
    if row :| Cleaned(row) == names {
      CleanedShape(row, |row|);
      forall k | 0 <= k < |names|
        ensures if k == 0 then CleanFirst(names[k]) else Trimmed(names[k])
      {
        StripTrims(row[k]);
        StripBomCleans(Strip(row[k]));
      }
    }
    if CleanNames(names) {
      var row := RawFor(names);
      assert Cleaned(row) == names;
    }
  }

  /** A row that cleans to these names: a mark shields a leading space. */
  lemma RawFor(names: seq<string>) returns (row: seq<string>)
    requires CleanNames(names)
    ensures Cleaned(row) == names
  {
    hide Strip, StripBom, IsSpace;
    row := if names == [] then [] else [[BOM] + names[0]] + names[1..];
    CleanedShape(row, |row|);
    forall k | 0 <= k < |names|
      ensures CleanName(row, k) == names[k]
    {
      if k == 0 {
        MarkedCleans(names[0]);
      } else {
        assert row[k] == names[k];
        TrimmedStays(names[k]);
      }
    }
  }

  lemma MarkedCleans(s: string)
    requires CleanFirst(s)
    ensures StripBom(Strip([BOM] + s)) == s
  {
    var t := [BOM] + s;
    assert t[|t| - 1] == if s == "" then BOM else s[|s| - 1];
    StripTrimmed(t);
    assert t[1..] == s;
    assert StripBom(s) == s;
  }

  lemma TrimmedStays(s: string)
    requires Trimmed(s)
    ensures Strip(s) == s
  {
    StripTrimmed(s);
  }

  // ----- where a name can be split

  /** Separators, if any, and then a character that is no white space. */
  predicate SeparatorsThenText(t: string) {
    t != "" && if t[0] == SEP then SeparatorsThenText(t[1..]) else !IsSpace(t[0])
  }

  /** A run of separators begins at `at`, with text on both sides; at the start of the
      first name it needs text after it only. */
  predicate SplitsAt(name: string, at: nat, first: bool) {
    && at < |name| && name[at] == SEP && SeparatorsThenText(name[at + 1..])
    && if at == 0 then first else !IsSpace(name[at - 1])
  }

  predicate SplitsIn(names: seq<string>, k: nat, at: nat, first: bool) {
    k < |names| && SplitsAt(names[k], at, first && k == 0)
  }

  ghost predicate Splits(names: seq<string>, first: bool) {
    exists k: nat, at: nat :: SplitsIn(names, k, at, first)
  }

  // ----- splitting

  /** What follows a separator, as names: an empty one for each further separator. */
  function Pieces(t: string): (r: seq<string>)
    ensures r != []
  {
    if t != "" && t[0] == SEP then [""] + Pieces(t[1..]) else [t]
  }

  lemma {:induction false} PiecesTrimmed(t: string)
    requires SeparatorsThenText(t) && EndsClean(t)
    ensures forall k :: 0 <= k < |Pieces(t)| ==> Trimmed(Pieces(t)[k])
  {
    if t[0] == SEP {
      assert t[1..] != "" ==> t[1..][|t[1..]| - 1] == t[|t| - 1];
      PiecesTrimmed(t[1..]);
    }
  }

  lemma {:induction false} PiecesJoin(before: seq<string>, x: string, t: string, after: seq<string>)
    ensures Join(SEP, before + [x] + Pieces(t) + after) == Join(SEP, before + [x + [SEP] + t] + after)
    decreases |t|
  {
    hide Join;
    JoinSplit(SEP, before, x, t, after);
    assert before + [x, t] + after == (before + [x]) + [t] + after;
    if t != "" && t[0] == SEP {
      PiecesJoin(before + [x], "", t[1..], after);
      assert t == "" + [SEP] + t[1..];
      assert before + [x] + Pieces(t) + after == (before + [x]) + [""] + Pieces(t[1..]) + after;
    }
  }

  /** A header with such a name shares its fingerprint with a longer one, and some row
      cleans to that one too. */
  lemma SplitNameClashes(names: seq<string>, k: nat, at: nat) returns (other: seq<string>)
    requires CleanNames(names) && k < |names| && SplitsAt(names[k], at, k == 0)
    ensures CleanNames(other) && |other| > |names|
    ensures Join(SEP, other) == Join(SEP, names)
  {
    hide Join, SeparatorsThenText;
    var x, t := names[k][..at], names[k][at + 1..];
    assert names[k] == x + [SEP] + t;
    assert names == names[..k] + [x + [SEP] + t] + names[k + 1..];
    other := names[..k] + [x] + Pieces(t) + names[k + 1..];
    PiecesJoin(names[..k], x, t, names[k + 1..]);
    NotEmptyAfter(t);
    assert t[|t| - 1] == names[k][|names[k]| - 1];
    PiecesTrimmed(t);
    forall i | 0 <= i < |other|
      ensures if i == 0 then CleanFirst(other[i]) else Trimmed(other[i])
    {
      if i < k {
        assert other[i] == names[i];
      } else if i == k {
        assert other[i] == x;
      } else if i < k + 1 + |Pieces(t)| {
        assert other[i] == Pieces(t)[i - k - 1];
      } else {
        assert other[i] == names[k + 1..][i - k - 1 - |Pieces(t)|];
      }
    }
  }

  lemma NotEmptyAfter(t: string)
    requires SeparatorsThenText(t)
    ensures t != ""
  {
  }

  // ----- no other way

  lemma {:induction false} SeparatorRun(t: string, parts: seq<string>, rest: string)
    requires t != "" && EndsClean(t) && parts != []
    requires forall i :: 0 <= i < |parts| ==> Trimmed(parts[i])
    requires Join(SEP, parts) == t + rest
    ensures SeparatorsThenText(t)
    decreases |t|
  {
    if parts[0] != "" {
      assert (t + rest)[0] == parts[0][0];
    } else if |parts| > 1 {
      assert (t + rest)[0] == SEP;
      assert Join(SEP, parts)[1..] == Join(SEP, parts[1..]);
      assert (t + rest)[1..] == t[1..] + rest;
      if t[1..] != "" {
        assert t[1..][|t[1..]| - 1] == t[|t| - 1];
        SeparatorRun(t[1..], parts[1..], rest);
      }
    }
  }

  /** Two readings of one text, of which the second is cut inside the first's head. */
  lemma HeadCut(head: string, x: string, part: string, y: string) returns (t: string)
    requires head + x == part + ([SEP] + y) && |part| < |head| && EndsClean(head)
    ensures head == part + [SEP] + t && t != "" && EndsClean(t)
    ensures y == t + x
  {
    var n := |part|;
    var s, r := head + x, part + ([SEP] + y);
    assert head[n] == s[n] == r[n] == SEP;
    assert n + 1 < |head|;
    t := head[n + 1..];
    assert head == s[..|head|] && part == r[..n];
    assert head[..n] == s[..n] == part;
    assert head == head[..n] + [head[n]] + head[n + 1..];
    assert y == r[n + 1..] && s[n + 1..] == t + x;
    assert t[|t| - 1] == head[|head| - 1];
  }

  function After(parts: seq<string>): string
    requires parts != []
  {
    if |parts| == 1 then "" else [SEP] + Join(SEP, parts[1..])
  }

  lemma HeadAndRest(parts: seq<string>)
    requires parts != []
    ensures Join(SEP, parts) == parts[0] + After(parts)
  {
  }

  lemma AfterIs(parts: seq<string>)
    requires parts != []
    ensures |parts| == 1 ==> After(parts) == ""
    ensures |parts| > 1 ==> After(parts) == [SEP] + Join(SEP, parts[1..])
  {
  }

  lemma SplitFromPieces(head: string, part: string, t: string, first: bool)
    requires head == part + [SEP] + t && SeparatorsThenText(t) && EndsClean(part)
    requires if first then CleanFirst(head) else Trimmed(head)
    ensures SplitsAt(head, |part|, first)
  {
    hide SeparatorsThenText;
    assert head[|part| + 1..] == t;
    assert part != "" ==> head[|part| - 1] == part[|part| - 1];
  }

  /** The other reading cuts inside the first name. */
  lemma CutInside(a: seq<string>, b: seq<string>, first: bool)
    requires a != [] && b != [] && Join(SEP, a) == Join(SEP, b) && |b[0]| < |a[0]|
    requires if first then CleanFirst(a[0]) else Trimmed(a[0])
    requires EndsClean(b[0]) && forall i :: 1 <= i < |b| ==> Trimmed(b[i])
    ensures SplitsAt(a[0], |b[0]|, first)
  {
    hide Join, SeparatorsThenText, After, SplitsAt, IsSpace;
    HeadAndRest(a);
    HeadAndRest(b);
    AfterIs(b);
    assert |a[0] + After(a)| >= |a[0]|;
    var t := HeadCut(a[0], After(a), b[0], Join(SEP, b[1..]));
    hide Trimmed, EndsClean, CleanFirst;
    SeparatorRun(t, b[1..], After(a));
    SplitFromPieces(a[0], b[0], t, first);
  }

  /** The other reading runs on past the first name: what is left of its first name. */
  lemma RunsOn(a: seq<string>, b: seq<string>) returns (z: string)
    requires a != [] && b != [] && Join(SEP, a) == Join(SEP, b) && |b[0]| > |a[0]|
    requires EndsClean(b[0])
    ensures |a| > 1 && EndsClean(z) && Join(SEP, a[1..]) == Join(SEP, [z] + b[1..])
  {
    hide Join;
    HeadAndRest(a);
    HeadAndRest(b);
    assert |b[0] + After(b)| >= |b[0]|;
    z := HeadCut(b[0], After(b), a[0], Join(SEP, a[1..]));
    NewHead(z, b);
  }

  lemma NewHead(z: string, b: seq<string>)
    requires b != []
    ensures Join(SEP, [z] + b[1..]) == z + After(b)
  {
    assert ([z] + b[1..])[1..] == b[1..];
  }

  lemma SameHeads(a: seq<string>, b: seq<string>)
    requires a != [] && b != [] && Join(SEP, a) == Join(SEP, b) && |b[0]| == |a[0]| && |b| >= |a|
    ensures a[0] == b[0] && After(a) == After(b)
    ensures |a| == 1 ==> |b| == 1
    ensures |a| > 1 ==> |b| > 1 && Join(SEP, a[1..]) == Join(SEP, b[1..])
  {
    hide Join;
    HeadAndRest(a);
    HeadAndRest(b);
    SameFront(a[0], After(a), b[0], After(b));
    if |a| > 1 {
      SameFront([SEP], Join(SEP, a[1..]), [SEP], Join(SEP, b[1..]));
    }
  }

  lemma SameFront(a: string, x: string, b: string, y: string)
    requires a + x == b + y && |a| == |b|
    ensures a == b && x == y
  {
    assert a == (a + x)[..|a|] == (b + y)[..|b|] == b;
    assert x == (a + x)[|a|..] == (b + y)[|b|..] == y;
  }

  lemma SplitsLater(names: seq<string>, first: bool)
    requires names != [] && Splits(names[1..], false)
    ensures Splits(names, first)
  {
    var k: nat, at: nat :| SplitsIn(names[1..], k, at, false);
    assert names[k + 1] == names[1..][k];
    assert SplitsIn(names, k + 1, at, first);
  }

  lemma {:induction false} OtherReadingSplits(a: seq<string>, b: seq<string>, first: bool)
    requires a != [] && |b| >= |a| && a != b && Join(SEP, a) == Join(SEP, b)
    requires if first then CleanFirst(a[0]) else Trimmed(a[0])
    requires forall i :: 1 <= i < |a| ==> Trimmed(a[i])
    requires EndsClean(b[0]) && forall i :: 1 <= i < |b| ==> Trimmed(b[i])
    ensures Splits(a, first)
    decreases |a|
  {
    hide Join, SplitsAt, Splits, IsSpace, EndsClean, CleanFirst;
    if |b[0]| < |a[0]| {
      CutInside(a, b, first);
      SplitsHere(a, |b[0]|, first);
    } else if |b[0]| > |a[0]| {
      var z := RunsOn(a, b);
      OtherReadingSplits(a[1..], [z] + b[1..], false);
      SplitsLater(a, first);
    } else {
      SameHeads(a, b);
      assert a == [a[0]] + a[1..] && b == [b[0]] + b[1..];
      OtherReadingSplits(a[1..], b[1..], false);
      SplitsLater(a, first);
    }
  }

  lemma SplitsHere(a: seq<string>, at: nat, first: bool)
    requires a != [] && SplitsAt(a[0], at, first)
    ensures Splits(a, first)
  {
    assert SplitsIn(a, 0, at, first);
  }

  // ----- the law

  /** Among the headers that parsing yields, one's fingerprint excludes every other of at
      least as many names exactly when none of its names can be split: no run of
      separators has text on both sides, or begins the first name before text. */
  lemma FingerprintExclusiveIff(row: seq<string>)
    requires row != []
    ensures !Splits(Cleaned(row), true) <==>
              forall other: seq<string> ::
                |other| >= |row| && Join(SEP, Cleaned(other)) == Join(SEP, Cleaned(row))
                ==> Cleaned(other) == Cleaned(row)
  {
    hide Join, Splits, Trimmed, CleanFirst, SplitsAt;
    var names := Cleaned(row);
    CleanNamesIff(names);
    if Splits(names, true) {
      var k, at := SplitOf(names);
      var longer := SplitNameClashes(names, k, at);
      var other := RawFor(longer);
      assert |other| > |row| && Cleaned(other) == longer;
    } else {
      forall other: seq<string> | |other| >= |row| && Join(SEP, Cleaned(other)) == Join(SEP, names)
        ensures Cleaned(other) == names
      {
        var b := Cleaned(other);
        CleanNamesIff(b);
        if b != names {
          FirstEndsClean(b[0]);
          OtherReadingSplits(names, b, true);
        }
      }
    }
  }

  lemma FirstEndsClean(s: string)
    requires CleanFirst(s)
    ensures EndsClean(s)
  {
  }

  lemma SplitOf(names: seq<string>) returns (k: nat, at: nat)
    requires Splits(names, true)
    ensures k < |names| && SplitsAt(names[k], at, k == 0)
  {
    k, at :| SplitsIn(names, k, at, true);
  }

  /** Two rows whose different names join to one text. */
  lemma HeadersClash()
    ensures var one, two := ["a" + [SEP] + "b"], ["a", "b"];
            Cleaned(one) != Cleaned(two) && Join(SEP, Cleaned(one)) == Join(SEP, Cleaned(two))
  {
    var one, two := ["a" + [SEP] + "b"], ["a", "b"];
    CleanedShape(one, 1);
    CleanedShape(two, 2);
    StripTrimmed(one[0]);
    StripTrimmed("a");
    StripTrimmed("b");
    assert Cleaned(one) == one && Cleaned(two) == two;
    assert two[1..] == ["b"];
  }
}
