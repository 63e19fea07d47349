/** The five rewriting passes behind a canonical name are one: a pass that keeps letters and
    digits and puts an underscore where a word starts. What each field of a header says. */
module HeaderFacts {
  import opened Sorting
  import opened Text
  import opened HeaderNames
  import opened HeaderParser

  // ----- one pass

  /** A word starts at character i: after another kind of character, at a capital after a
      lower-case letter or digit, or at the last capital of a run that a lower-case letter
      follows. */
  predicate WordStarts(text: string, i: int)
    requires 0 <= i < |text|
  {
    && i > 0
    && (|| !IsAlnum(text[i - 1])
        || (!IsUpper(text[i - 1]) && IsUpper(text[i]))
        || (IsUpper(text[i - 1]) && IsUpper(text[i]) && i + 1 < |text| && IsLower(text[i + 1])))
  }

  /** The letters and digits of the first n characters, words apart. */
  function Worded(text: string, n: nat): string
    requires n <= |text|
  {
    if n == 0 then ""
    else
      var before, c := Worded(text, n - 1), text[n - 1];
      if !IsAlnum(c) then before
      else before + (if before != "" && WordStarts(text, n - 1) then "_" else "") + [c]
  }

  /** Where the first two passes put an underscore. */
  predicate Splits(text: string, i: int)
    requires 0 <= i < |text|
  {
    WordStarts(text, i) && IsAlnum(text[i - 1]) && IsUpper(text[i])
  }

  function Divided(text: string, n: nat): string
    requires n <= |text|
  {
    if n == 0 then "" else Divided(text, n - 1) + (if Splits(text, n - 1) then "_" else "") + [text[n - 1]]
  }

  predicate CamelBoundary(text: string, i: int)
    requires 0 <= i < |text|
  {
    i > 0 && (IsLower(text[i - 1]) || IsDigit(text[i - 1])) && IsUpper(text[i])
  }

  lemma CamelPush(text: string, n: nat)
    requires n < |text|
    ensures CamelSplit(text[..n + 1])
            == CamelSplit(text[..n]) + (if CamelBoundary(text, n) then "_" else "") + [text[n]]
  {
    assert text[..n + 1][..n] == text[..n];
  }

  lemma {:induction false} CamelPrefix(text: string, n: nat)
    requires n <= |text|
    ensures CamelSplit(text[..n]) <= CamelSplit(text)
    ensures n > 0 ==> CamelSplit(text[..n]) != [] && CamelSplit(text[..n])[|CamelSplit(text[..n])| - 1] == text[n - 1]
    decreases |text| - n
  {
    hide CamelSplit, CamelBoundary;
    if n > 0 {
      CamelPush(text, n - 1);
    }
    if n == |text| {
      assert text[..n] == text;
    } else {
      CamelPush(text, n);
      CamelPrefix(text, n + 1);
    }
  }

  /** The character after a prefix's. */
  lemma CamelNext(text: string, n: nat)
    requires n < |text|
    ensures var camel, m := CamelSplit(text), |CamelSplit(text[..n])|;
            && m < |camel|
            && camel[m] == (if CamelBoundary(text, n) then '_' else text[n])
            && (CamelBoundary(text, n) ==> m + 1 < |camel| && camel[m + 1] == text[n])
            && |CamelSplit(text[..n + 1])| == m + (if CamelBoundary(text, n) then 2 else 1)
  {
    hide CamelSplit, CamelBoundary;
    CamelPush(text, n);
    CamelPrefix(text, n + 1);
  }

  lemma {:induction false} AcronymIsDivided(text: string, n: nat)
    requires n <= |text|
    ensures |CamelSplit(text[..n])| <= |CamelSplit(text)|
    ensures AcronymSplit(CamelSplit(text), |CamelSplit(text[..n])|) == Divided(text, n)
  {
    hide CamelSplit;
    CamelPrefix(text, n);
    if n == 0 {
      CamelOfNone(text[..0]);
    } else {
      AcronymIsDivided(text, n - 1);
      CamelPrefix(text, n - 1);
      CamelNext(text, n - 1);
      if n < |text| {
        CamelNext(text, n);
      }
      CamelLength(text, n);
    }
  }

  lemma CamelOfNone(s: string)
    requires s == ""
    ensures CamelSplit(s) == ""
  {
  }

  lemma CamelLength(text: string, n: nat)
    requires n <= |text|
    ensures |CamelSplit(text[..n])| == |CamelSplit(text)| <==> n == |text|
  {
    hide CamelSplit;
    if n == |text| {
      assert text[..n] == text;
    } else {
      CamelNext(text, n);
      CamelPrefix(text, n + 1);
    }
  }

  lemma SquashPush(s: string, c: char)
    ensures Squash(s + [c])
            == Squash(s) + if IsAlnum(c) then [c] else if s != "" && !IsAlnum(s[|s| - 1]) then "" else "_"
  {
    assert (s + [c])[..|s|] == s;
  }

  lemma {:induction false} DividedEnds(text: string, n: nat)
    requires n <= |text|
    ensures n > 0 ==> Divided(text, n) != "" && Divided(text, n)[|Divided(text, n)| - 1] == text[n - 1]
    ensures n == 0 ==> Divided(text, n) == ""
  {
  }

  lemma {:induction false} WordedEnds(text: string, n: nat)
    requires n <= |text|
    ensures var w := Worded(text, n); w != "" ==> IsAlnum(w[0]) && IsAlnum(w[|w| - 1])
    ensures n > 0 && IsAlnum(text[n - 1]) ==> Worded(text, n) != ""
  {
    if n > 0 {
      WordedEnds(text, n - 1);
    }
  }

  /** What the squashing pass makes of the first n characters: the words, with an
      underscore before or after them where other characters are. */
  function Edged(text: string, n: nat): string
    requires n <= |text|
  {
    var w := Worded(text, n);
    if n == 0 then ""
    else if w == "" then "_"
    else (if IsAlnum(text[0]) then "" else "_") + w + (if IsAlnum(text[n - 1]) then "" else "_")
  }

  lemma {:induction false} SquashIsEdged(text: string, n: nat)
    requires n <= |text|
    ensures Squash(Divided(text, n)) == Edged(text, n)
  {
    hide Squash, IsAlnum, Divided, Edged, Splits;
    if n == 0 {
      SquashOfNone(text);
    } else {
      SquashIsEdged(text, n - 1);
      SquashStep(text, n - 1);
      EdgedStep(text, n - 1);
    }
  }

  lemma SquashOfNone(text: string)
    ensures Squash(Divided(text, 0)) == "" == Edged(text, 0)
  {
  }

  lemma UnderscoreIsOther()
    ensures !IsAlnum('_')
  {
  }

  /** The squashing pass over one more character, and the mark before it. */
  lemma SquashStep(text: string, n: nat)
    requires n < |text|
    ensures Squash(Divided(text, n + 1))
            == Squash(Divided(text, n))
               + if Splits(text, n) then "_" + [text[n]]
                 else if IsAlnum(text[n]) then [text[n]]
                 else if n > 0 && !IsAlnum(text[n - 1]) then "" else "_"
  {
    hide Squash;
    DividedEnds(text, n);
    var before := Divided(text, n);
    if Splits(text, n) {
      SquashPush(before, '_');
      SquashPush(before + "_", text[n]);
      assert before + "_" + [text[n]] == Divided(text, n + 1);
    } else {
      SquashPush(before, text[n]);
      assert before + "" == before;
    }
  }

  lemma EdgedStep(text: string, n: nat)
    requires n < |text|
    ensures Edged(text, n + 1)
            == Edged(text, n)
               + if Splits(text, n) then "_" + [text[n]]
                 else if IsAlnum(text[n]) then [text[n]]
                 else if n > 0 && !IsAlnum(text[n - 1]) then "" else "_"
  {
    hide WordStarts, Splits, IsAlnum, Edged;
    StartsOrSplits(text, n);
    if IsAlnum(text[n]) {
      EdgedKeeps(text, n);
    } else {
      EdgedSkips(text, n);
    }
  }

  lemma EdgedSkips(text: string, n: nat)
    requires n < |text| && !IsAlnum(text[n])
    ensures Edged(text, n + 1) == Edged(text, n) + if n > 0 && !IsAlnum(text[n - 1]) then "" else "_"
  {
    hide WordStarts, IsAlnum, Worded;
    assert Worded(text, n + 1) == Worded(text, n) by {
      WordedSkips(text, n);
    }
    WordedEnds(text, n);
    WordedEmpty(text, n);
  }

  lemma WordedSkips(text: string, n: nat)
    requires n < |text| && !IsAlnum(text[n])
    ensures Worded(text, n + 1) == Worded(text, n)
  {
  }

  lemma WordedKeeps(text: string, n: nat)
    requires n < |text| && IsAlnum(text[n])
    ensures Worded(text, n + 1)
            == Worded(text, n) + (if Worded(text, n) != "" && WordStarts(text, n) then "_" else "") + [text[n]]
  {
    hide WordStarts, IsAlnum;
  }

  lemma EdgedKeeps(text: string, n: nat)
    requires n < |text| && IsAlnum(text[n])
    ensures Edged(text, n + 1) == Edged(text, n) + (if Splits(text, n) then "_" else "") + [text[n]]
  {
    hide WordStarts, Splits, IsAlnum, Worded;
    WordedKeeps(text, n);
    WordedEnds(text, n);
    WordedEmpty(text, n);
    StartsOrSplits(text, n);
    var w := Worded(text, n);
    if w == "" {
      assert n > 0 ==> !IsAlnum(text[n - 1]) && !IsAlnum(text[0]);
      assert Worded(text, n + 1) == [text[n]];
    } else {
      assert n > 0;
    }
  }

  lemma {:induction false} WordedEmpty(text: string, n: nat)
    requires n <= |text|
    ensures Worded(text, n) == "" <==> forall i :: 0 <= i < n ==> !IsAlnum(text[i])
  {
    hide WordStarts, IsAlnum;
    if n > 0 {
      WordedEmpty(text, n - 1);
    }
  }

  lemma StartsOrSplits(text: string, n: nat)
    requires n < |text|
    ensures Splits(text, n) ==> IsAlnum(text[n]) && n > 0 && IsAlnum(text[n - 1])
    ensures IsAlnum(text[n]) ==> (WordStarts(text, n) <==> Splits(text, n) || (n > 0 && !IsAlnum(text[n - 1])))
  {
  }

  lemma StripEdges(w: string)
    requires w != "" && w[0] != '_' && w[|w| - 1] != '_'
    ensures StripUnderscores(w) == w && StripUnderscores("_" + w) == w
    ensures StripUnderscores(w + "_") == w && StripUnderscores("_" + w + "_") == w
  {
    var after, both := w + "_", "_" + w + "_";
    assert after[..|after| - 1] == w && both[1..] == after && ("_" + w)[1..] == w;
  }

  lemma StripNothing()
    ensures StripUnderscores("") == "" && StripUnderscores("_") == ""
  {
    assert "_"[1..] == "";
  }

  /** A capital becomes its lower-case letter, anything else stays. */
  predicate LowersTo(c: char, d: char) {
    if 'A' <= c <= 'Z' then d as int == c as int + 32 else d == c
  }

  /** The passes together are one. */
  lemma FlattenIsOnePass(text: string)
    ensures var words, flat := Worded(text, |text|), Flatten(text);
            |flat| == |words| && forall i :: 0 <= i < |words| ==> LowersTo(words[i], flat[i])
  {
    hide CamelSplit, AcronymSplit, Squash, Collapse, StripUnderscores, Worded, Lower;
    var n := |text|;
    assert text[..n] == text;
    AcronymIsDivided(text, n);
    SquashIsEdged(text, n);
    var squashed := Squash(Divided(text, n));
    SquashTidy(Divided(text, n));
    TidyHasNoDouble(squashed);
    CollapseKeeps(squashed);
    StrippedIsWorded(text);
    var words := Worded(text, n);
    assert Flatten(text) == Lower(words);
    forall i | 0 <= i < |words|
      ensures LowersTo(words[i], Lower(words)[i])
    {
    }
  }

  lemma StrippedIsWorded(text: string)
    ensures StripUnderscores(Edged(text, |text|)) == Worded(text, |text|)
  {
    hide Worded, StripUnderscores, Edged, IsAlnum;
    var words := Worded(text, |text|);
    WordedEnds(text, |text|);
    WordedOfNone(text);
    StripNothing();
    EdgedForms(text);
    UnderscoreIsOther();
    if words != "" {
      StripEdges(words);
    }
  }

  lemma EdgedForms(text: string)
    ensures var words, edged := Worded(text, |text|), Edged(text, |text|);
            && (words == "" ==> edged == "" || edged == "_")
            && (words != "" ==>
                  edged == words || edged == "_" + words || edged == words + "_" || edged == "_" + words + "_")
  {
    hide Worded, IsAlnum;
    WordedOfNone(text);
    if text != "" {
      Sides(Worded(text, |text|), IsAlnum(text[0]), IsAlnum(text[|text| - 1]));
    }
  }

  lemma Sides(words: string, bareBefore: bool, bareAfter: bool)
    ensures var edged := (if bareBefore then "" else "_") + words + (if bareAfter then "" else "_");
            edged == words || edged == "_" + words || edged == words + "_" || edged == "_" + words + "_"
  {
    assert "" + words == words && words + "" == words && "_" + words + "" == "_" + words;
  }

  lemma WordedOfNone(text: string)
    ensures text == "" ==> Worded(text, |text|) == ""
  {
  }

  // ----- a name

  /** What is left of a text once white space is removed around it. */
  lemma StripRead(s: string) returns (before: string, after: string)
    ensures s == before + Strip(s) + after && Trimmed(Strip(s))
    ensures forall i :: 0 <= i < |before| ==> IsSpace(before[i])
    ensures forall i :: 0 <= i < |after| ==> IsSpace(after[i])
  {
    hide IsSpace, Trimmed, StripLeft, StripRight;
    StripTrims(s);
    before := LeftSpace(s);
    var rest := StripLeft(s);
    after := RightSpace(rest);
    assert before + (StripRight(rest) + after) == before + StripRight(rest) + after;
  }

  lemma {:induction false} LeftSpace(s: string) returns (before: string)
    ensures s == before + StripLeft(s) && forall i :: 0 <= i < |before| ==> IsSpace(before[i])
  {
    before := "";
    if s != [] && IsSpace(s[0]) {
      var rest := LeftSpace(s[1..]);
      before := [s[0]] + rest;
    }
  }

  lemma {:induction false} RightSpace(s: string) returns (after: string)
    ensures s == StripRight(s) + after && forall i :: 0 <= i < |after| ==> IsSpace(after[i])
  {
    after := "";
    if s != [] && IsSpace(s[|s| - 1]) {
      var rest := RightSpace(s[..|s| - 1]);
      after := rest + [s[|s| - 1]];
    }
  }

  /** Leading byte order marks go, all of them and nothing else. */
  lemma {:induction false} BomRead(s: string) returns (marks: nat)
    ensures marks <= |s| && StripBom(s) == s[marks..]
    ensures (forall i :: 0 <= i < marks ==> s[i] == BOM) && (marks < |s| ==> s[marks] != BOM)
  {
    marks := 0;
    if s != [] && s[0] == BOM {
      var rest := BomRead(s[1..]);
      marks := rest + 1;
    }
  }

  /** The canonical name: the words of the header in lower case, or a name made from its
      position when it has none; one that would start with a digit gets a prefix. */
  ghost predicate NameRead(text: string, position: nat, name: string) {
    var words := Worded(text, |text|);
    if words == "" then name == "unnamed_field_" + NatText(position)
    else
      var prefix := if '0' <= words[0] <= '9' then "f_" else "";
      && |name| == |prefix| + |words| && name[..|prefix|] == prefix
      && forall i :: 0 <= i < |words| ==> LowersTo(words[i], name[|prefix| + i])
  }

  lemma CanonicalRead(name: string, position: nat)
    ensures NameRead(StripBom(Strip(name)), position, Canonicalise(name, position))
  {
    hide Strip, StripBom, Flatten, Worded, NatText;
    var text := StripBom(Strip(name));
    FlattenIsOnePass(text);
    WordedOfNone(text);
    var words, flat := Worded(text, |text|), Flatten(text);
    if words != "" {
      assert LowersTo(words[0], flat[0]);
      FirstDigit(words[0], flat[0]);
    }
  }

  lemma FirstDigit(c: char, d: char)
    requires LowersTo(c, d)
    ensures IsDigit(d) <==> '0' <= c <= '9'
  {
  }

  // ----- the fields

  /** Every name is stripped, the first also of byte order marks after that. */
  lemma {:induction false} CleanedRead(row: seq<string>, n: nat)
    requires n <= |row|
    ensures forall k :: 0 <= k < n ==> CleanUpTo(row, n)[k] == if k == 0 then StripBom(Strip(row[k])) else Strip(row[k])
  {
    hide Strip, StripBom;
    if n > 0 {
      CleanedRead(row, n - 1);
    }
  }

  /** The positions before k whose name is the same. */
  function Before(names: seq<string>, k: nat, name: string): set<nat> {
    set j: nat | j < k && j < |names| && names[j] == name
  }

  lemma {:induction false} CountRead(names: seq<string>, k: nat, name: string)
    requires k <= |names|
    ensures CountName(names[..k], name) == |Before(names, k, name)|
  {
    if k == 0 {
      assert Before(names, 0, name) == {};
    } else {
      CountRead(names, k - 1, name);
      assert names[..k][..k - 1] == names[..k - 1];
      assert Before(names, k, name) == Before(names, k - 1, name) + if names[k - 1] == name then {k - 1} else {};
    }
  }

  /** Some earlier field has this canonical name. */
  ghost predicate Taken(names: seq<string>, k: nat, name: string)
    requires k <= |names|
  {
    exists j :: 0 <= j < k && FieldAt(names, j).canonical == name
  }

  /** Field k of a header with these cleaned names. */
  ghost predicate FieldRead(names: seq<string>, k: nat, f: HeaderField)
    requires k < |names|
  {
    var base, total := Canonicalise(names[k], k), |Before(names, |names|, names[k])|;
    var wanted := if f.occurrence == 1 then base else base + "_occurrence_" + NatText(f.occurrence);
    && f.position == k && f.name == names[k]
    && f.occurrence == |Before(names, k, names[k])| + 1
    && (f.duplicate <==> total > 1)
    && (if Taken(names, k, wanted)
        then && f.review == Collides(wanted)
             && exists m: nat :: && m >= 2 && f.canonical == wanted + "_" + NatText(m)
                                 && !Taken(names, k, f.canonical)
                                 && forall i: nat :: 2 <= i < m ==> Taken(names, k, wanted + "_" + NatText(i))
        else && f.canonical == wanted
             && f.review == if f.occurrence > 1 then Repeated(total) else NotNeeded)
  }

  lemma TakenIff(names: seq<string>, k: nat, name: string)
    requires k <= |names|
    ensures Taken(names, k, name) <==> name in Canonicals(names, k)
  {
    hide FreeName, Wanted, ReviewOf;
    forall j | 0 <= j < k
      ensures Canonicals(names, k)[j] == FieldAt(names, j).canonical
    {
      CanonicalsPrefix(names, j + 1, k);
      assert Canonicals(names, k)[..j + 1][j] == Canonicals(names, k)[j];
    }
  }

  /** What each field says, from the cleaned names of the header. */
  lemma FieldsRead(names: seq<string>, k: nat)
    requires k < |names|
    ensures FieldRead(names, k, FieldAt(names, k))
  {
    hide Canonicalise, CountName, FreeName, NatText, Taken, Before;
    CountRead(names, k, names[k]);
    CountRead(names, |names|, names[k]);
    assert names[..|names|] == names;
    var wanted, before := Wanted(names, k), Canonicals(names, k);
    TakenIff(names, k, wanted);
    FreeNameKeeps(Members(before), wanted);
    if wanted in before {
      var m := FreeNameRead(names, k, wanted);
    }
  }

  lemma FreeNameRead(names: seq<string>, k: nat, wanted: string) returns (m: nat)
    requires k <= |names| && wanted in Canonicals(names, k)
    ensures var name := FreeName(Members(Canonicals(names, k)), wanted);
            && m >= 2 && name == wanted + "_" + NatText(m) && !Taken(names, k, name)
            && forall i: nat :: 2 <= i < m ==> Taken(names, k, wanted + "_" + NatText(i))
  {
    hide FirstFree, NatText, Taken, Canonicals;
    var used := Members(Canonicals(names, k));
    m := FirstFreeIsLeast(used, wanted + "_", 2);
    TakenIff(names, k, FreeName(used, wanted));
    forall i: nat | 2 <= i < m
      ensures Taken(names, k, wanted + "_" + NatText(i))
    {
      TakenIff(names, k, wanted + "_" + NatText(i));
    }
  }
}