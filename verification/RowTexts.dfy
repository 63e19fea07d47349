/** When a row's canonical text identifies its values. */
module RowTexts {
  import opened Text
  import opened FrameModels
  import opened FieldValues
  import opened CanonicalSerializer
  import opened Numerals
  import HeaderNames
  import HeaderParser

  function RowText(names: seq<string>, values: seq<string>, excluded: set<string>): string {
    Join(VALUE_SEP, RowParts(names, values, excluded))
  }

  /** The two rows hold the same canonical value in every included field. */
  ghost predicate SameValues(names: seq<string>, v: seq<string>, w: seq<string>, excluded: set<string>)
    requires |v| == |w| == |names|
  {
    forall i :: 0 <= i < |names| && names[i] !in excluded ==> v[i] == w[i]
  }

  /** What announces a field within a row's text. */
  function Delimiter(name: string): string {
    [VALUE_SEP] + name + "="
  }

  /** `j` is the first included field after the included field `i`. */
  ghost predicate Follows(names: seq<string>, excluded: set<string>, i: nat, j: nat) {
    && i < j < |names|
    && names[i] !in excluded && names[j] !in excluded
    && forall k :: i < k < j ==> names[k] in excluded
  }

  /** Each field that counts holds a canonical text of its kind. */
  ghost predicate IsRow(ser: Serializer, names: seq<string>, v: seq<string>) {
    |v| == |names| && forall i :: 0 <= i < |names| && names[i] !in ser.excluded ==> Held(ser, names[i], v[i])
  }

  ghost predicate Held(ser: Serializer, name: string, text: string) {
    CanHold(ser.KindOf(name), ser.nulls, text)
  }

  /** The value could end earlier, before the next field's announcement. */
  ghost predicate EndsEarlier(ser: Serializer, name: string, value: string, delimiter: string) {
    exists x, y :: value == x + delimiter + y && Held(ser, name, x) && y != "" && !IsSpace(y[0])
  }

  /** The value could begin later, after its own announcement. */
  ghost predicate BeginsLater(ser: Serializer, name: string, value: string, delimiter: string) {
    exists x, y :: value == x + delimiter + y && EndsClean(x) && Held(ser, name, y)
  }

  /** The announcement of field j could be read elsewhere within the two values around it. */
  ghost predicate ClashAt(ser: Serializer, names: seq<string>, v: seq<string>, i: nat, j: nat)
    requires |v| == |names|
  {
    && Follows(names, ser.excluded, i, j)
    && (|| EndsEarlier(ser, names[i], v[i], Delimiter(names[j]))
        || BeginsLater(ser, names[j], v[j], Delimiter(names[j])))
  }

  ghost predicate Ambiguous(ser: Serializer, names: seq<string>, v: seq<string>)
    requires |v| == |names|
  {
    exists i: nat, j: nat :: ClashAt(ser, names, v, i, j)
  }

  // ----- what a field can hold

  /** No spelling of absence holds the separator. */
  ghost predicate PlainNulls(ser: Serializer) {
    forall spelling :: spelling in ser.nulls ==> VALUE_SEP !in spelling
  }

  lemma HeldFramed(ser: Serializer, name: string, text: string)
    requires Held(ser, name, text)
    ensures Framed(text)
  {
    HeldIsFramed(ser.KindOf(name), ser.nulls, text);
  }

  lemma SeparatedIsHeld(ser: Serializer, name: string, text: string)
    requires PlainNulls(ser) && VALUE_SEP in text && Framed(text)
    ensures Held(ser, name, text)
  {
    ForeignIsHeld(ser.KindOf(name), ser.nulls, text, VALUE_SEP);
  }

  lemma RowFrom(ser: Serializer, names: seq<string>, v: seq<string>, j: nat)
    requires IsRow(ser, names, v) && j <= |names|
    ensures IsRow(ser, names[j..], v[j..])
  {
    hide Held;
    forall i | 0 <= i < |names[j..]| && names[j..][i] !in ser.excluded
      ensures Held(ser, names[j..][i], v[j..][i])
    {
      assert names[j..][i] == names[i + j] && v[j..][i] == v[i + j];
    }
  }

  lemma RowWith(ser: Serializer, names: seq<string>, v: seq<string>, i: nat, x: string)
    requires IsRow(ser, names, v) && i < |names| && Held(ser, names[i], x)
    ensures IsRow(ser, names, v[i := x])
  {
    hide Held;
  }

  lemma RawFor(ser: Serializer, names: seq<string>, v: seq<string>, n: nat) returns (raws: seq<Option<string>>)
    requires IsRow(ser, names, v) && n <= |names|
    ensures |raws| == n
    ensures forall i :: 0 <= i < n && names[i] !in ser.excluded ==> ser.ValueOf(names[i], raws[i]) == Value(v[i])
  {
    hide CanonicalValue;
    if n == 0 {
      raws := [];
    } else {
      var init := RawFor(ser, names, v, n - 1);
      if names[n - 1] in ser.excluded {
        raws := init + [None];
      } else {
        assert Held(ser, names[n - 1], v[n - 1]);
        var raw :| CanonicalValue(ser.KindOf(names[n - 1]), raw, ser.nulls) == Value(v[n - 1]);
        raws := init + [raw];
      }
    }
  }

  /** These rows are exactly what raw rows canonicalise to. */
  lemma IsRowIff(ser: Serializer, names: seq<string>, v: seq<string>)
    requires |v| == |names|
    ensures IsRow(ser, names, v) <==> exists raws :: Canonicalises(ser, names, raws, v)
  {
    hide CanonicalValue;
    if IsRow(ser, names, v) {
      var raws := RawFor(ser, names, v, |names|);
      assert Canonicalises(ser, names, raws, v);
    }
    if raws :| Canonicalises(ser, names, raws, v) {
      forall i | 0 <= i < |names| && names[i] !in ser.excluded
        ensures Held(ser, names[i], v[i])
      {
        assert ser.ValueOf(names[i], raws[i]) == Value(v[i]);
      }
    }
  }

  // ----- stepping over fields

  lemma {:induction false} DropExcluded(names: seq<string>, v: seq<string>, excluded: set<string>, j: nat)
    requires |v| == |names| && j <= |names|
    requires forall k :: 0 <= k < j ==> names[k] in excluded
    ensures RowParts(names, v, excluded) == RowParts(names[j..], v[j..], excluded)
  {
    if j == 0 {
      assert names[0..] == names && v[0..] == v;
    } else {
      DropExcluded(names[1..], v[1..], excluded, j - 1);
      assert names[1..][j - 1..] == names[j..] && v[1..][j - 1..] == v[j..];
    }
  }

  /** The first included field from `from` on, if any. */
  function NextIncluded(names: seq<string>, excluded: set<string>, from: nat): (j: nat)
    requires from <= |names|
    ensures from <= j <= |names|
    ensures forall k :: from <= k < j ==> names[k] in excluded
    ensures j < |names| ==> names[j] !in excluded
    decreases |names| - from
  {
    if from < |names| && names[from] in excluded then NextIncluded(names, excluded, from + 1) else from
  }

  /** A row whose first field is included, cut after that field. */
  lemma HeadOfRow(names: seq<string>, v: seq<string>, excluded: set<string>, j: nat)
    requires |v| == |names| > 0 && names[0] !in excluded
    requires j == NextIncluded(names, excluded, 1)
    ensures j == |names| ==> RowText(names, v, excluded) == names[0] + "=" + v[0]
    ensures j < |names| ==>
              RowText(names, v, excluded)
              == names[0] + "=" + v[0] + [VALUE_SEP] + RowText(names[j..], v[j..], excluded)
  {
    var head, rest := names[0] + "=" + v[0], RowParts(names[j..], v[j..], excluded);
    DropExcluded(names[1..], v[1..], excluded, j - 1);
    assert names[1..][j - 1..] == names[j..] && v[1..][j - 1..] == v[j..];
    assert RowParts(names, v, excluded) == [head] + rest;
    assert ([head] + rest)[1..] == rest;
    if j < |names| {
      assert names[j..][0] == names[j];
      assert rest != [];
    }
  }

  /** What follows the first value of a row that begins with an included field. */
  function Tail(names: seq<string>, v: seq<string>, excluded: set<string>): string
    requires |v| == |names| > 0
  {
    var j := NextIncluded(names, excluded, 1);
    if j == |names| then "" else [VALUE_SEP] + RowText(names[j..], v[j..], excluded)
  }

  lemma RowIsHeadAndTail(names: seq<string>, v: seq<string>, excluded: set<string>)
    requires |v| == |names| > 0 && names[0] !in excluded
    ensures RowText(names, v, excluded) == names[0] + "=" + (v[0] + Tail(names, v, excluded))
  {
    hide RowText;
    HeadOfRow(names, v, excluded, NextIncluded(names, excluded, 1));
  }

  /** Where another field follows, its announcement comes first in the tail. */
  lemma TailAnnounces(names: seq<string>, v: seq<string>, excluded: set<string>, j: nat)
    requires |v| == |names| > 0 && names[0] !in excluded
    requires j == NextIncluded(names, excluded, 1) < |names|
    ensures Tail(names, v, excluded) == Delimiter(names[j]) + (v[j] + Tail(names[j..], v[j..], excluded))
  {
    hide RowText;
    RowIsHeadAndTail(names[j..], v[j..], excluded);
    assert names[j..][0] == names[j] && v[j..][0] == v[j];
  }

  /** Only the first value matters to the head: the tail is that of the other values. */
  lemma TailIgnoresHead(names: seq<string>, v: seq<string>, x: string, excluded: set<string>)
    requires |v| == |names| > 0
    ensures Tail(names, v[0 := x], excluded) == Tail(names, v, excluded)
  {
    hide RowText;
    var j := NextIncluded(names, excluded, 1);
    assert v[0 := x][j..] == v[j..];
  }

  // ----- two readings of one text

  /** A delimiter holds one separator, its first character: when it starts inside `a`
      and a separator comes right after `a`, it lies wholly inside `a`. */
  lemma DelimiterInside(a: string, x: string, b: string, y: string, name: string) returns (z: string)
    requires VALUE_SEP !in name
    requires a + ([VALUE_SEP] + x) == b + (Delimiter(name) + y) && |b| < |a|
    ensures a == b + Delimiter(name) + z
  {
    var d := Delimiter(name);
    var s, t := a + ([VALUE_SEP] + x), b + (d + y);
    assert s[|a|] == VALUE_SEP;
    forall m | |b| < m < |b| + |d|
      ensures t[m] != VALUE_SEP
    {
      assert t[m] == d[m - |b|] == if m - |b| <= |name| then name[m - |b| - 1] else '=';
    }
    assert |b| + |d| <= |a|;
    z := a[|b| + |d|..];
    assert a == s[..|a|] == t[..|a|];
  }

  lemma CancelFront(p: string, x: string, y: string)
    requires p + x == p + y
    ensures x == y
  {
    assert (p + x)[|p|..] == x && (p + y)[|p|..] == y;
  }

  lemma ClashLater(ser: Serializer, names: seq<string>, v: seq<string>, j: nat)
    requires |v| == |names| && j <= |names|
    requires Ambiguous(ser, names[j..], v[j..])
    ensures Ambiguous(ser, names, v)
  {
    hide EndsEarlier, BeginsLater, Delimiter;
    var a: nat, b: nat :| ClashAt(ser, names[j..], v[j..], a, b);
    forall k | a + j < k < b + j
      ensures names[k] in ser.excluded
    {
      assert names[j..][k - j] == names[k];
    }
    assert ClashAt(ser, names, v, a + j, b + j);
  }

  lemma HeadClash(ser: Serializer, names: seq<string>, v: seq<string>, j: nat)
    requires |v| == |names| > 0 && names[0] !in ser.excluded
    requires j == NextIncluded(names, ser.excluded, 1) < |names|
    requires || EndsEarlier(ser, names[0], v[0], Delimiter(names[j]))
             || BeginsLater(ser, names[j], v[j], Delimiter(names[j]))
    ensures Ambiguous(ser, names, v)
  {
    hide EndsEarlier, BeginsLater, Delimiter;
    assert ClashAt(ser, names, v, 0, j);
  }

  lemma OneFieldSame(names: seq<string>, v: seq<string>, w: seq<string>, excluded: set<string>)
    requires |v| == |w| == |names| > 0
    requires NextIncluded(names, excluded, 1) == |names|
    requires v[0] == w[0]
    ensures SameValues(names, v, w, excluded)
  {
  }

  lemma SameAfterHead(names: seq<string>, v: seq<string>, w: seq<string>, excluded: set<string>, j: nat)
    requires |v| == |w| == |names| > 0
    requires j == NextIncluded(names, excluded, 1) < |names|
    requires v[0] == w[0] && SameValues(names[j..], v[j..], w[j..], excluded)
    ensures SameValues(names, v, w, excluded)
  {
    forall i | 0 <= i < |names| && names[i] !in excluded
      ensures v[i] == w[i]
    {
      if i >= j {
        assert names[j..][i - j] == names[i] && v[j..][i - j] == v[i] && w[j..][i - j] == w[i];
      }
    }
  }

  lemma DifferentHeads(names: seq<string>, v: seq<string>, w: seq<string>, excluded: set<string>)
    requires |v| == |w| == |names| > 0 && names[0] !in excluded && v[0] != w[0]
    ensures !SameValues(names, v, w, excluded)
  {
  }

  lemma EqualLengths(a: string, x: string, b: string, y: string)
    requires a + x == b + y && |a| == |b|
    ensures a == b && x == y
  {
    assert a == (a + x)[..|a|] == (b + y)[..|b|] == b;
    CancelFront(a, x, y);
  }

  /** The rest of a row after a value starts with a separator, if there is any. */
  lemma TailStarts(names: seq<string>, v: seq<string>, excluded: set<string>)
    requires |v| == |names| > 0
    ensures Tail(names, v, excluded) != "" ==> Tail(names, v, excluded)[0] == VALUE_SEP
  {
    hide RowText;
  }

  /** A value that is longer than another reading of it, which ends at a separator. */
  lemma LongerIsHeld(ser: Serializer, name: string, value: string, tail: string, head: string, w: string, more: string)
    requires PlainNulls(ser) && Framed(value) && Held(ser, name, w)
    requires value + tail == (head + w) + more && |head + w| <= |value|
    requires more != "" ==> more[0] == VALUE_SEP
    ensures exists y :: value == head + y && Held(ser, name, y)
  {
    hide Held;
    var y := value[|head|..];
    var s := value + tail;
    assert value == s[..|value|];
    assert head == s[..|head|] == value[..|head|];
    assert value == head + y;
    HeldFramed(ser, name, w);
    assert w == s[|head|..|head + w|] == y[..|w|];
    if |y| == |w| {
      assert y == w;
    } else {
      assert y[|w|] == s[|head + w|] == more[0];
      assert y[0] == w[0] && y[|y| - 1] == value[|value| - 1];
      SeparatedIsHeld(ser, name, y);
    }
  }

  lemma LaterBeginning(ser: Serializer, name: string, value: string, tail: string, z: string, w: string, more: string)
    requires PlainNulls(ser) && Framed(value) && Held(ser, name, w) && EndsClean(z)
    requires value + tail == (z + Delimiter(name) + w) + more && |z + Delimiter(name) + w| <= |value|
    requires more != "" ==> more[0] == VALUE_SEP
    ensures BeginsLater(ser, name, value, Delimiter(name))
  {
    hide Held, Delimiter;
    LongerIsHeld(ser, name, value, tail, z + Delimiter(name), w, more);
    var y :| value == (z + Delimiter(name)) + y && Held(ser, name, y);
    assert value == z + Delimiter(name) + y;
  }

  lemma ShorterIsHeld(ser: Serializer, name: string, value: string, tail: string, z: string, w: string, more: string)
    requires PlainNulls(ser) && Framed(value) && Held(ser, name, w)
    requires value + tail == (z + Delimiter(name) + w) + more
    ensures Held(ser, name, z + Delimiter(name) + w)
  {
    hide Held;
    HeldFramed(ser, name, w);
    var u := z + Delimiter(name) + w;
    assert u[|z|] == VALUE_SEP;
    assert u[|u| - 1] == w[|w| - 1];
    assert u[0] == (u + more)[0] == (value + tail)[0] == value[0];
    SeparatedIsHeld(ser, name, u);
  }

  /** The other reading has a longer first value, which swallows the next announcement:
      that moves the difference on to the next field. */
  lemma Swallows(ser: Serializer, names: seq<string>, v: seq<string>, w: seq<string>, j: nat) returns (u: seq<string>)
    requires IsRow(ser, names, v) && IsRow(ser, names, w) && PlainNulls(ser)
    requires |names| > 0 && names[0] !in ser.excluded && FreeOf(VALUE_SEP, names)
    requires j == NextIncluded(names, ser.excluded, 1) < |names|
    requires v[0] + Tail(names, v, ser.excluded) == w[0] + Tail(names, w, ser.excluded)
    requires |w[0]| > |v[0]|
    ensures IsRow(ser, names[j..], u)
    ensures RowText(names[j..], u, ser.excluded) == RowText(names[j..], v[j..], ser.excluded)
    ensures |u[0]| <= |v[j]| ==> BeginsLater(ser, names[j], v[j], Delimiter(names[j]))
  {
    hide RowText, Tail, Delimiter, Held, BeginsLater;
    TailAnnounces(names, v, ser.excluded, j);
    TailAnnounces(names, w, ser.excluded, j);
    var d, later := Delimiter(names[j]), names[j..];
    var tv, tw := Tail(later, v[j..], ser.excluded), Tail(later, w[j..], ser.excluded);
    DelimiterLeads(names[j], w[j] + tw);
    var z := DelimiterInside(w[0], d[1..] + (w[j] + tw), v[0], v[j] + tv, names[j]);
    assert v[0] + (d + (v[j] + tv)) == (v[0] + d) + (v[j] + tv);
    assert w[0] + (d + (w[j] + tw)) == (v[0] + d) + ((z + d + w[j]) + tw);
    CancelFront(v[0] + d, v[j] + tv, (z + d + w[j]) + tw);
    HeldFramed(ser, names[0], w[0]);
    HeldFramed(ser, names[j], v[j]);
    EndOfJoined(v[0] + d, z, w[0]);
    TailStarts(later, w[j..], ser.excluded);
    ShorterIsHeld(ser, names[j], v[j], tv, z, w[j], tw);
    if |z + d + w[j]| <= |v[j]| {
      LaterBeginning(ser, names[j], v[j], tv, z, w[j], tw);
    }
    u := w[j..][0 := z + d + w[j]];
    RowFrom(ser, names, w, j);
    assert later[0] == names[j] && v[j..][0] == v[j];
    RowWith(ser, later, w[j..], 0, z + d + w[j]);
    TailIgnoresHead(later, w[j..], z + d + w[j], ser.excluded);
    RowIsHeadAndTail(later, u, ser.excluded);
    RowIsHeadAndTail(later, v[j..], ser.excluded);
  }

  lemma EndOfJoined(a: string, z: string, whole: string)
    requires whole == a + z && EndsClean(whole)
    ensures EndsClean(z)
  {
    assert z != "" ==> z[|z| - 1] == whole[|whole| - 1];
  }

  lemma DelimiterLeads(name: string, y: string)
    ensures Delimiter(name) != [] && Delimiter(name) + y == [VALUE_SEP] + (Delimiter(name)[1..] + y)
  {
  }

  /** The other reading has a shorter first value, so the next announcement, where the
      other reading has it, lies inside the first value of this one. */
  lemma Yields(ser: Serializer, names: seq<string>, v: seq<string>, w: seq<string>, j: nat)
    requires IsRow(ser, names, v) && IsRow(ser, names, w)
    requires |names| > 0 && names[0] !in ser.excluded && FreeOf(VALUE_SEP, names)
    requires j == NextIncluded(names, ser.excluded, 1) < |names|
    requires v[0] + Tail(names, v, ser.excluded) == w[0] + Tail(names, w, ser.excluded)
    requires |w[0]| < |v[0]|
    ensures EndsEarlier(ser, names[0], v[0], Delimiter(names[j]))
  {
    hide RowText, Tail, Delimiter, Held;
    TailAnnounces(names, v, ser.excluded, j);
    TailAnnounces(names, w, ser.excluded, j);
    var d := Delimiter(names[j]);
    var tv := v[j] + Tail(names[j..], v[j..], ser.excluded);
    var more := Tail(names[j..], w[j..], ser.excluded);
    DelimiterLeads(names[j], tv);
    var z := DelimiterInside(v[0], d[1..] + tv, w[0], w[j] + more, names[j]);
    assert v[0] + (d + tv) == (w[0] + d) + (z + (d + tv));
    assert w[0] + (d + (w[j] + more)) == (w[0] + d) + (w[j] + more);
    CancelFront(w[0] + d, z + (d + tv), w[j] + more);
    HeldFramed(ser, names[j], w[j]);
    assert (w[j] + more)[0] == w[j][0] && (d + tv)[0] == VALUE_SEP;
    assert z != "" && z[0] == w[j][0];
  }

  lemma {:induction false} OtherReadingClashes(ser: Serializer, names: seq<string>, v: seq<string>, w: seq<string>)
    requires IsRow(ser, names, v) && IsRow(ser, names, w) && PlainNulls(ser)
    requires |names| > 0 && names[0] !in ser.excluded
    requires FreeOf(VALUE_SEP, names)
    requires RowText(names, v, ser.excluded) == RowText(names, w, ser.excluded)
    ensures SameValues(names, v, w, ser.excluded) || Ambiguous(ser, names, v)
    decreases |names|
  {
    hide RowText, Tail, SameValues, Ambiguous, Delimiter, EndsEarlier, BeginsLater, IsRow, PlainNulls;
    RowLength(ser, names, v);
    RowLength(ser, names, w);
    var j := NextIncluded(names, ser.excluded, 1);
    RowIsHeadAndTail(names, v, ser.excluded);
    RowIsHeadAndTail(names, w, ser.excluded);
    CancelFront(names[0] + "=", v[0] + Tail(names, v, ser.excluded), w[0] + Tail(names, w, ser.excluded));
    if |w[0]| == |v[0]| {
      EqualLengths(v[0], Tail(names, v, ser.excluded), w[0], Tail(names, w, ser.excluded));
      if j == |names| {
        OneFieldSame(names, v, w, ser.excluded);
      } else {
        TailsAgree(names, v, w, ser.excluded, j);
        RowFrom(ser, names, v, j);
        RowFrom(ser, names, w, j);
        OtherReadingClashes(ser, names[j..], v[j..], w[j..]);
        LaterOrSame(ser, names, v, w, j);
      }
    } else if j < |names| {
      if |w[0]| < |v[0]| {
        Yields(ser, names, v, w, j);
        HeadClash(ser, names, v, j);
      } else {
        var u := Swallows(ser, names, v, w, j);
        RowLength(ser, names[j..], u);
        if |u[0]| <= |v[j]| {
          HeadClash(ser, names, v, j);
        } else {
          RowFrom(ser, names, v, j);
          OtherReadingClashes(ser, names[j..], v[j..], u);
          DifferentHeads(names[j..], v[j..], u, ser.excluded);
          ClashLater(ser, names, v, j);
        }
      }
    } else {
      LoneTails(names, v, w, ser.excluded);
    }
  }

  lemma RowLength(ser: Serializer, names: seq<string>, v: seq<string>)
    requires IsRow(ser, names, v)
    ensures |v| == |names|
  {
    hide Held;
  }

  lemma LoneTails(names: seq<string>, v: seq<string>, w: seq<string>, excluded: set<string>)
    requires |v| == |w| == |names| > 0
    requires NextIncluded(names, excluded, 1) == |names|
    ensures Tail(names, v, excluded) == Tail(names, w, excluded) == ""
  {
  }

  lemma TailsAgree(names: seq<string>, v: seq<string>, w: seq<string>, excluded: set<string>, j: nat)
    requires |v| == |w| == |names| > 0
    requires j == NextIncluded(names, excluded, 1) < |names|
    requires Tail(names, v, excluded) == Tail(names, w, excluded)
    ensures RowText(names[j..], v[j..], excluded) == RowText(names[j..], w[j..], excluded)
  {
    hide RowText;
    CancelFront([VALUE_SEP], RowText(names[j..], v[j..], excluded), RowText(names[j..], w[j..], excluded));
  }

  lemma LaterOrSame(ser: Serializer, names: seq<string>, v: seq<string>, w: seq<string>, j: nat)
    requires |v| == |w| == |names| > 0
    requires j == NextIncluded(names, ser.excluded, 1) < |names|
    requires v[0] == w[0]
    requires SameValues(names[j..], v[j..], w[j..], ser.excluded) || Ambiguous(ser, names[j..], v[j..])
    ensures SameValues(names, v, w, ser.excluded) || Ambiguous(ser, names, v)
  {
    hide SameValues, Ambiguous;
    if Ambiguous(ser, names[j..], v[j..]) {
      ClashLater(ser, names, v, j);
    } else {
      SameAfterHead(names, v, w, ser.excluded, j);
    }
  }

  // ----- building the other reading

  lemma PartsBefore(names: seq<string>, v: seq<string>, w: seq<string>, excluded: set<string>, i: nat)
    requires |v| == |w| == |names| && i <= |names|
    requires v[..i] == w[..i]
    requires RowText(names[i..], v[i..], excluded) == RowText(names[i..], w[i..], excluded)
    requires i < |names| && names[i] !in excluded
    ensures RowText(names, v, excluded) == RowText(names, w, excluded)
    decreases i
  {
    hide RowText;
    if i == 0 {
      assert names[0..] == names && v[0..] == v && w[0..] == w;
    } else {
      assert names[1..][i - 1..] == names[i..] && v[1..][i - 1..] == v[i..] && w[1..][i - 1..] == w[i..];
      assert v[1..][..i - 1] == v[..i][1..] && w[1..][..i - 1] == w[..i][1..];
      PartsBefore(names[1..], v[1..], w[1..], excluded, i - 1);
      assert names[1..][i - 1] == names[i];
      assert v[0] == v[..i][0] == w[..i][0] == w[0];
      OneMoreField(names, v, excluded, i);
      OneMoreField(names, w, excluded, i);
    }
  }

  /** A row with an included field later on: what its first field adds. */
  lemma OneMoreField(names: seq<string>, v: seq<string>, excluded: set<string>, k: nat)
    requires |v| == |names| && 1 <= k < |names| && names[k] !in excluded
    ensures names[0] in excluded ==> RowText(names, v, excluded) == RowText(names[1..], v[1..], excluded)
    ensures names[0] !in excluded ==>
              RowText(names, v, excluded) == names[0] + "=" + v[0] + [VALUE_SEP] + RowText(names[1..], v[1..], excluded)
  {
    assert names[1..][k - 1] == names[k];
    SomeParts(names[1..], v[1..], excluded, k - 1);
    PartsStep(names, v, excluded);
    hide RowParts;
    var head, rest := names[0] + "=" + v[0], RowParts(names[1..], v[1..], excluded);
    assert ([head] + rest)[1..] == rest && ([head] + rest)[0] == head;
  }

  lemma PartsStep(names: seq<string>, v: seq<string>, excluded: set<string>)
    requires |v| == |names| > 0
    ensures RowParts(names, v, excluded)
            == if names[0] in excluded then RowParts(names[1..], v[1..], excluded)
               else [names[0] + "=" + v[0]] + RowParts(names[1..], v[1..], excluded)
  {
    var rest := RowParts(names[1..], v[1..], excluded);
    assert [] + rest == rest;
  }

  lemma {:induction false} SomeParts(names: seq<string>, v: seq<string>, excluded: set<string>, k: nat)
    requires |v| == |names| && k < |names| && names[k] !in excluded
    ensures RowParts(names, v, excluded) != []
  {
    if k > 0 {
      assert names[1..][k - 1] == names[k];
      SomeParts(names[1..], v[1..], excluded, k - 1);
    }
  }

  lemma {:induction false} NextUnique(names: seq<string>, excluded: set<string>, from: nat, j: nat)
    requires from <= j < |names| && names[j] !in excluded
    requires forall k :: from <= k < j ==> names[k] in excluded
    ensures NextIncluded(names, excluded, from) == j
    decreases j - from
  {
    if from < j {
      NextUnique(names, excluded, from + 1, j);
    }
  }

  lemma NextIs(names: seq<string>, excluded: set<string>, i: nat, j: nat)
    requires Follows(names, excluded, i, j)
    ensures NextIncluded(names[i..], excluded, 1) == j - i
  {
    var later := names[i..];
    forall k | 1 <= k < j - i
      ensures later[k] in excluded
    {
      assert later[k] == names[i + k];
    }
    assert later[j - i] == names[j];
    NextUnique(later, excluded, 1, j - i);
  }

  /** Moving the announcement of field j elsewhere within the two values around it. */
  lemma Reread(names: seq<string>, v: seq<string>, excluded: set<string>, i: nat, j: nat, a: string, b: string)
    requires |v| == |names| && Follows(names, excluded, i, j)
    requires a + Delimiter(names[j]) + b == v[i] + Delimiter(names[j]) + v[j]
    ensures RowText(names, v[i := a][j := b], excluded) == RowText(names, v, excluded)
  {
    hide RowText, Tail, Delimiter;
    var w := v[i := a][j := b];
    var later, d := names[i..], Delimiter(names[j]);
    NextIs(names, excluded, i, j);
    RowIsHeadAndTail(later, v[i..], excluded);
    RowIsHeadAndTail(later, w[i..], excluded);
    TailAnnounces(later, v[i..], excluded, j - i);
    TailAnnounces(later, w[i..], excluded, j - i);
    assert later[j - i] == names[j] && later[j - i..] == names[j..];
    assert v[i..][j - i..] == v[j..] && w[i..][j - i..] == w[j..];
    assert w[j..] == v[j..][0 := b];
    TailIgnoresHead(names[j..], v[j..], b, excluded);
    var t := Tail(names[j..], v[j..], excluded);
    assert w[i..][0] == a && v[i..][0] == v[i];
    assert w[i..][j - i] == b && v[i..][j - i] == v[j];
    assert a + (d + (b + t)) == (a + d + b) + t;
    assert v[i] + (d + (v[j] + t)) == (v[i] + d + v[j]) + t;
    assert v[..i] == w[..i];
    PartsBefore(names, w, v, excluded, i);
  }

  lemma JoinedFramed(a: string, name: string, b: string)
    requires a != "" && !IsSpace(a[0]) && Framed(b)
    ensures Framed(a + Delimiter(name) + b) && VALUE_SEP in a + Delimiter(name) + b
  {
    var s := a + Delimiter(name) + b;
    assert s[0] == a[0] && s[|s| - 1] == b[|b| - 1] && s[|a|] == VALUE_SEP;
  }

  lemma AppendedFramed(a: string, name: string, x: string)
    requires Framed(a) && EndsClean(x)
    ensures Framed(a + Delimiter(name) + x) && VALUE_SEP in a + Delimiter(name) + x
  {
    var s := a + Delimiter(name) + x;
    assert s[0] == a[0] && s[|a|] == VALUE_SEP;
    assert s[|s| - 1] == if x == "" then '=' else x[|x| - 1];
  }

  lemma EarlierEnd(ser: Serializer, names: seq<string>, v: seq<string>, i: nat, j: nat) returns (a: string, b: string)
    requires i < |names| == |v| && j < |names| && PlainNulls(ser) && Held(ser, names[j], v[j])
    requires EndsEarlier(ser, names[i], v[i], Delimiter(names[j]))
    ensures Held(ser, names[i], a) && Held(ser, names[j], b)
    ensures a + Delimiter(names[j]) + b == v[i] + Delimiter(names[j]) + v[j]
    ensures |a| != |v[i]|
  {
    hide Held, Delimiter, Framed, PlainNulls;
    var d := Delimiter(names[j]);
    DelimiterLeads(names[j], "");
    HeldFramed(ser, names[j], v[j]);
    var x, y :| v[i] == x + d + y && Held(ser, names[i], x) && y != "" && !IsSpace(y[0]);
    a, b := x, y + d + v[j];
    JoinedFramed(y, names[j], v[j]);
    SeparatedIsHeld(ser, names[j], b);
    assert a + d + b == (x + d + y) + d + v[j];
  }

  lemma LaterStart(ser: Serializer, names: seq<string>, v: seq<string>, i: nat, j: nat) returns (a: string, b: string)
    requires i < |names| == |v| && j < |names| && PlainNulls(ser) && Held(ser, names[i], v[i])
    requires BeginsLater(ser, names[j], v[j], Delimiter(names[j]))
    ensures Held(ser, names[i], a) && Held(ser, names[j], b)
    ensures a + Delimiter(names[j]) + b == v[i] + Delimiter(names[j]) + v[j]
    ensures |a| != |v[i]|
  {
    hide Held, Delimiter, Framed, PlainNulls;
    var d := Delimiter(names[j]);
    DelimiterLeads(names[j], "");
    HeldFramed(ser, names[i], v[i]);
    var x, y :| v[j] == x + d + y && EndsClean(x) && Held(ser, names[j], y);
    a, b := v[i] + d + x, y;
    AppendedFramed(v[i], names[j], x);
    SeparatedIsHeld(ser, names[i], a);
    assert a + d + b == v[i] + d + (x + d + y);
  }

  /** The two values when the first one ends earlier, or the second begins later. */
  lemma OtherValues(ser: Serializer, names: seq<string>, v: seq<string>, i: nat, j: nat) returns (a: string, b: string)
    requires IsRow(ser, names, v) && ClashAt(ser, names, v, i, j) && PlainNulls(ser)
    ensures Held(ser, names[i], a) && Held(ser, names[j], b)
    ensures a + Delimiter(names[j]) + b == v[i] + Delimiter(names[j]) + v[j]
    ensures |a| != |v[i]|
  {
    hide Held, Delimiter, EndsEarlier, BeginsLater, PlainNulls;
    if EndsEarlier(ser, names[i], v[i], Delimiter(names[j])) {
      a, b := EarlierEnd(ser, names, v, i, j);
    } else {
      a, b := LaterStart(ser, names, v, i, j);
    }
  }

  lemma ClashRereads(ser: Serializer, names: seq<string>, v: seq<string>, i: nat, j: nat) returns (w: seq<string>)
    requires IsRow(ser, names, v) && ClashAt(ser, names, v, i, j) && PlainNulls(ser)
    ensures IsRow(ser, names, w) && RowText(names, w, ser.excluded) == RowText(names, v, ser.excluded)
    ensures !SameValues(names, v, w, ser.excluded)
  {
    hide RowText, Held, Delimiter, EndsEarlier, BeginsLater;
    var a, b := OtherValues(ser, names, v, i, j);
    Reread(names, v, ser.excluded, i, j, a, b);
    w := v[i := a][j := b];
    RowWith(ser, names, v, i, a);
    RowWith(ser, names, v[i := a], j, b);
    assert w[i] == a;
  }

  lemma SkipToIncluded(ser: Serializer, names: seq<string>, v: seq<string>, w: seq<string>)
    requires IsRow(ser, names, v) && IsRow(ser, names, w) && PlainNulls(ser)
    requires FreeOf(VALUE_SEP, names)
    requires RowText(names, v, ser.excluded) == RowText(names, w, ser.excluded)
    ensures SameValues(names, v, w, ser.excluded) || Ambiguous(ser, names, v)
  {
    hide RowText, Ambiguous, SameValues, Held;
    var i := NextIncluded(names, ser.excluded, 0);
    SameRowText(names, v, ser.excluded, i);
    SameRowText(names, w, ser.excluded, i);
    if i < |names| {
      assert names[i..][0] == names[i];
      RowFrom(ser, names, v, i);
      RowFrom(ser, names, w, i);
      OtherReadingClashes(ser, names[i..], v[i..], w[i..]);
      if Ambiguous(ser, names[i..], v[i..]) {
        ClashLater(ser, names, v, i);
      } else {
        SameFrom(names, v, w, ser.excluded, i);
      }
    } else {
      NothingIncluded(names, v, w, ser.excluded);
    }
  }

  lemma SameRowText(names: seq<string>, v: seq<string>, excluded: set<string>, i: nat)
    requires |v| == |names| && i == NextIncluded(names, excluded, 0)
    ensures RowText(names, v, excluded) == RowText(names[i..], v[i..], excluded)
  {
    DropExcluded(names, v, excluded, i);
  }

  lemma SameFrom(names: seq<string>, v: seq<string>, w: seq<string>, excluded: set<string>, i: nat)
    requires |v| == |w| == |names| && i == NextIncluded(names, excluded, 0)
    requires SameValues(names[i..], v[i..], w[i..], excluded)
    ensures SameValues(names, v, w, excluded)
  {
    forall k | 0 <= k < |names| && names[k] !in excluded
      ensures v[k] == w[k]
    {
      assert k >= i;
      assert names[i..][k - i] == names[k] && v[i..][k - i] == v[k] && w[i..][k - i] == w[k];
    }
  }

  lemma NothingIncluded(names: seq<string>, v: seq<string>, w: seq<string>, excluded: set<string>)
    requires |v| == |w| == |names| && NextIncluded(names, excluded, 0) == |names|
    ensures SameValues(names, v, w, excluded)
  {
  }

  // ----- the laws

  /** A row that is not ambiguous shares its text only with rows of the same values. */
  lemma RowTextInjective(ser: Serializer, names: seq<string>, v: seq<string>, w: seq<string>)
    requires IsRow(ser, names, v) && IsRow(ser, names, w) && PlainNulls(ser)
    requires FreeOf(VALUE_SEP, names)
    requires !Ambiguous(ser, names, v)
    ensures RowText(names, v, ser.excluded) == RowText(names, w, ser.excluded)
            <==> SameValues(names, v, w, ser.excluded)
  {
    hide RowText, Ambiguous, SameValues, Held;
    if RowText(names, v, ser.excluded) == RowText(names, w, ser.excluded) {
      SkipToIncluded(ser, names, v, w);
    }
    if SameValues(names, v, w, ser.excluded) {
      SameValuesSameText(names, v, w, ser.excluded);
    }
  }

  lemma {:induction false} SameValuesSameText(names: seq<string>, v: seq<string>, w: seq<string>, excluded: set<string>)
    requires |v| == |w| == |names| && SameValues(names, v, w, excluded)
    ensures RowParts(names, v, excluded) == RowParts(names, w, excluded)
    ensures RowText(names, v, excluded) == RowText(names, w, excluded)
  {
    if names != [] {
      forall i | 0 <= i < |names[1..]| && names[1..][i] !in excluded
        ensures v[1..][i] == w[1..][i]
      {
        assert names[1..][i] == names[i + 1] && v[1..][i] == v[i + 1] && w[1..][i] == w[i + 1];
      }
      SameValuesSameText(names[1..], v[1..], w[1..], excluded);
    }
  }

  /** Among the rows that canonicalisation yields, one's text excludes all of other values
      exactly when, for no two neighbouring fields, the announcement of the second can be
      read elsewhere: inside the first value, between what the first field can hold and
      text, or inside the second, before what the second field can hold. */
  lemma RowTextExclusiveIff(ser: Serializer, names: seq<string>, v: seq<string>)
    requires IsRow(ser, names, v) && PlainNulls(ser)
    requires FreeOf(VALUE_SEP, names)
    ensures !Ambiguous(ser, names, v) <==>
              forall w :: IsRow(ser, names, w) && RowText(names, w, ser.excluded) == RowText(names, v, ser.excluded)
                          ==> SameValues(names, v, w, ser.excluded)
  {
    hide RowText, SameValues, ClashAt, Held;
    if Ambiguous(ser, names, v) {
      var i: nat, j: nat :| ClashAt(ser, names, v, i, j);
      var w := ClashRereads(ser, names, v, i, j);
    } else {
      forall w | IsRow(ser, names, w) && RowText(names, w, ser.excluded) == RowText(names, v, ser.excluded)
        ensures SameValues(names, v, w, ser.excluded)
      {
        RowTextInjective(ser, names, v, w);
      }
    }
  }

  /** Two different rows, of a schema without declared kinds, that do share their text. */
  lemma RowTextsClash()
    ensures var ser, names := Serializer(map[], {}, {}), ["a", "b"];
            var v, w := ["x" + Delimiter("b") + "q", "y"], ["x", "q" + Delimiter("b") + "y"];
            && IsRow(ser, names, v) && IsRow(ser, names, w)
            && RowText(names, v, {}) == RowText(names, w, {}) && !SameValues(names, v, w, {})
  {
    hide *;
    var ser, a, b, d := Serializer(map[], {}, {}), "a", "b", Delimiter("b");
    HeldTexts(ser);
    RowOfTwo(ser, a, b, "x" + d + "q", "y");
    RowOfTwo(ser, a, b, "x", "q" + d + "y");
    TwoReadings(a, b, "x" + d + "q", "y", "x", "q" + d + "y");
    assert |"x" + d + "q"| > |"x"|;
    assert "x" + d + ("q" + d + "y") == ("x" + d + "q") + d + "y";
  }

  lemma HeldTexts(ser: Serializer)
    requires ser.kinds == map[] && ser.nulls == {}
    ensures Held(ser, "a", "x") && Held(ser, "b", "y")
    ensures Held(ser, "a", "x" + Delimiter("b") + "q") && Held(ser, "b", "q" + Delimiter("b") + "y")
  {
    hide Delimiter;
    LetterIsHeld("x");
    LetterIsHeld("y");
    JoinedFramed("x", "b", "q");
    JoinedFramed("q", "b", "y");
    SeparatedIsHeld(ser, "a", "x" + Delimiter("b") + "q");
    SeparatedIsHeld(ser, "b", "q" + Delimiter("b") + "y");
  }

  lemma RowOfTwo(ser: Serializer, a: string, b: string, x: string, y: string)
    requires Held(ser, a, x) && Held(ser, b, y)
    ensures IsRow(ser, [a, b], [x, y])
  {
    hide Held;
  }

  lemma TwoReadings(a: string, b: string, x: string, y: string, z: string, t: string)
    requires z + Delimiter(b) + t == x + Delimiter(b) + y
    ensures RowText([a, b], [z, t], {}) == RowText([a, b], [x, y], {})
    ensures x != z ==> !SameValues([a, b], [x, y], [z, t], {})
  {
    hide RowText, Delimiter;
    var names, v := [a, b], [x, y];
    assert Follows(names, {}, 0, 1);
    Reread(names, v, {}, 0, 1, z, t);
    assert v[0 := z][1 := t] == [z, t];
    assert names[0] == a && v[0] == x && [z, t][0] == z;
  }

  lemma LetterIsHeld(text: string)
    requires text == "x" || text == "y"
    ensures CanHold(UNTYPED, {}, text)
  {
    hide Strip, CaseFold, ReadRaw;
    LetterIsNoNumber(text);
    NumericValue(UNTYPED, Some(text), {});
    assert CanonicalValue(UNTYPED, Some(text), {}) == Value(text);
  }

  lemma LetterIsNoNumber(text: string)
    requires text == "x" || text == "y"
    ensures Strip(text) == text && !IsNumber(text)
  {
    StripTrimmed(text);
    NoUnderscores(text);
    assert DigitRun(text) == 0;
  }

  /** The columns of a parsed file carry canonical names, which hold no separator. */
  lemma ColumnNamesFree(header: seq<string>, k: nat)
    requires k < |header|
    ensures VALUE_SEP !in HeaderParser.FieldAt(header, k).canonical
  {
    var name := HeaderParser.FieldAt(header, k).canonical;
    HeaderParser.CanonicalNamesAreSnake(header, k);
    hide *;
    SnakeHoldsNoSeparator(name);
  }

  lemma SnakeHoldsNoSeparator(name: string)
    ensures HeaderNames.Snake(name) ==> VALUE_SEP !in name
  {
    if HeaderNames.Snake(name) {
      forall i | 0 <= i < |name|
        ensures name[i] != VALUE_SEP
      {
        assert HeaderNames.IsSnakeChar(name[i]);
      }
    }
  }
}
