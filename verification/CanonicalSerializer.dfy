/** The text that identifies a frame. A fingerprint is modelled by the text that is
    hashed, so two fingerprints are equal exactly when those texts are. */
module CanonicalSerializer {
  import opened Sorting
  import opened Text
  import opened FrameModels
  import opened FieldValues

  const FIELD_SEP := '\U{1E}'
  const VALUE_SEP := '\U{1F}'

  // ----- rows

  /** `name=value` for every field that is not excluded. */
  function RowParts(names: seq<string>, values: seq<string>, excluded: set<string>): seq<string> {
    if names == [] || values == [] then []
    else
      (if names[0] in excluded then [] else [names[0] + "=" + values[0]])
      + RowParts(names[1..], values[1..], excluded)
  }

  /** How raw text is canonicalised: the declared kinds of fields, the spellings of
      absence, and the fields that stay out of every fingerprint. */
  datatype Serializer = Serializer(kinds: map<string, FieldKind>, nulls: set<string>, excluded: set<string>)
  {
    function KindOf(name: string): FieldKind {
      if name in kinds then kinds[name] else UNTYPED
    }

    function ValueOf(name: string, raw: Option<string>): Outcome {
      CanonicalValue(KindOf(name), raw, nulls)
    }
  }

  /** These are the canonical values of the raw ones, in every field that counts. */
  ghost predicate Canonicalises(ser: Serializer, names: seq<string>, raws: seq<Option<string>>, values: seq<string>) {
    && |values| == |raws|
    && forall i :: 0 <= i < |names| && i < |raws| && names[i] !in ser.excluded ==>
         ser.ValueOf(names[i], raws[i]) == Value(values[i])
  }

  ghost predicate SomeValueFails(ser: Serializer, names: seq<string>, raws: seq<Option<string>>) {
    exists i :: 0 <= i < |names| && i < |raws| && names[i] !in ser.excluded && ser.ValueOf(names[i], raws[i]).Failed?
  }

  lemma {:induction false} PartsPush(names: seq<string>, values: seq<string>, excluded: set<string>, n: nat)
    requires n < |names| && n < |values|
    ensures RowParts(names[..n + 1], values[..n + 1], excluded)
            == RowParts(names[..n], values[..n], excluded)
               + if names[n] in excluded then [] else [names[n] + "=" + values[n]]
    decreases n
  {
    assert names[..n + 1][1..] == names[1..][..n] && values[..n + 1][1..] == values[1..][..n];
    if n > 0 {
      PartsPush(names[1..], values[1..], excluded, n - 1);
      assert names[..n][1..] == names[1..][..n - 1] && values[..n][1..] == values[1..][..n - 1];
      assert names[1..][n - 1] == names[n] && values[1..][n - 1] == values[n];
    }
  }

  lemma {:induction false} PartsOfPaired(names: seq<string>, values: seq<string>, excluded: set<string>, n: nat)
    requires n <= |names| && n <= |values| && (n == |names| || n == |values|)
    ensures RowParts(names[..n], values[..n], excluded) == RowParts(names, values, excluded)
    decreases n
  {
    if n > 0 {
      PartsOfPaired(names[1..], values[1..], excluded, n - 1);
      assert names[..n][1..] == names[1..][..n - 1] && values[..n][1..] == values[1..][..n - 1];
    }
  }

  /** The loop that canonicalises a row's values and assembles its text; it fails when
      decimal arithmetic fails on a value. */
  method CanonicalRow(ser: Serializer, names: seq<string>, raws: seq<Option<string>>) returns (text: Outcome)
    ensures text.Failed? <==> SomeValueFails(ser, names, raws)
    ensures forall values :: Canonicalises(ser, names, raws, values) ==>
              text == Value(Join(VALUE_SEP, RowParts(names, values, ser.excluded)))
  {
    hide CanonicalValue, Join;
    var parts: seq<string> := [];
    var i := 0;
    while i < |names| && i < |raws|
      invariant 0 <= i <= |names| && i <= |raws|
      invariant forall k :: 0 <= k < i && names[k] !in ser.excluded ==> ser.ValueOf(names[k], raws[k]).Value?
      invariant forall values :: Canonicalises(ser, names, raws, values) ==>
                  parts == RowParts(names[..i], values[..i], ser.excluded)
    {
      forall values | Canonicalises(ser, names, raws, values)
        ensures RowParts(names[..i + 1], values[..i + 1], ser.excluded)
                == RowParts(names[..i], values[..i], ser.excluded)
                   + if names[i] in ser.excluded then [] else [names[i] + "=" + values[i]]
      {
        PartsPush(names, values, ser.excluded, i);
      }
      if names[i] !in ser.excluded {
        var value := ser.ValueOf(names[i], raws[i]);
        if value.Failed? {
          return Failed;
        }
        parts := parts + [names[i] + "=" + value.text];
      }
      i := i + 1;
    }
    forall values | Canonicalises(ser, names, raws, values)
      ensures parts == RowParts(names, values, ser.excluded)
    {
      PartsOfPaired(names, values, ser.excluded, i);
    }
    text := Value(Join(VALUE_SEP, parts));
  }

  // ----- frames

  function FrameParts(keys: seq<string>, m: map<string, Digest>): (parts: seq<string>)
    requires forall k :: k in keys ==> k in m
    ensures |parts| == |keys|
    ensures forall i :: 0 <= i < |keys| ==> parts[i] == keys[i] + "=" + m[keys[i]]
  {
    if keys == [] then []
    else [keys[0] + "=" + m[keys[0]]] + FrameParts(keys[1..], m)
  }

  function SortedTexts(s: set<string>): (r: seq<string>)
    ensures forall x :: x in r <==> x in s
    ensures Distinct(r) && Ascending(r, TextLe)
    ensures |r| == |s|
  {
    TextLeIsTotalOrder();
    SortedSet(s, TextLe)
  }

  /** Keyed by position text and sorted, so row order does not matter. */
  function FrameFingerprint(m: map<string, Digest>): string {
    Join(FIELD_SEP, FrameParts(SortedTexts(m.Keys), m))
  }

  lemma PartSplits(k: string, d: Digest, l: string, e: Digest)
    ensures k + "=" + d == l + "=" + e <==> k == l && d == e
  {
    var x, y := k + "=" + d, l + "=" + e;
    if x == y {
      assert |k| == |l|;
      assert k == x[..|k|] && l == y[..|l|];
      assert d == x[|k| + 1..] && e == y[|l| + 1..];
    }
  }

  lemma PartsDetermine(a: seq<string>, m: map<string, Digest>, b: seq<string>, n: map<string, Digest>)
    requires (forall k :: k in a ==> k in m) && (forall k :: k in b ==> k in n)
    requires FrameParts(a, m) == FrameParts(b, n)
    ensures a == b
    ensures forall i :: 0 <= i < |a| ==> a[i] in n && m[a[i]] == n[a[i]]
  {
    forall i | 0 <= i < |a|
      ensures a[i] == b[i] && m[a[i]] == n[b[i]]
    {
      assert FrameParts(a, m)[i] == FrameParts(b, n)[i];
      PartSplits(a[i], m[a[i]], b[i], n[b[i]]);
    }
  }

  lemma SamePartsSameMap(m: map<string, Digest>, n: map<string, Digest>)
    requires FrameParts(SortedTexts(m.Keys), m) == FrameParts(SortedTexts(n.Keys), n)
    ensures m == n
  {
    hide SortedTexts, FrameParts, TextLe;
    var a, b := SortedTexts(m.Keys), SortedTexts(n.Keys);
    PartsDetermine(a, m, b, n);
    forall k | k in m || k in n
      ensures k in m && k in n && m[k] == n[k]
    {
      assert k in a;
    }
  }

  // ----- frames over nested positions

  /** What the keys of a frame contribute to its text: each with "=", 64 digits of
      digest and a separator. */
  function Weight(keys: seq<string>): nat {
    if keys == [] then 0 else Weight(keys[..|keys| - 1]) + |keys[|keys| - 1]| + 66
  }

  lemma {:induction false} WeightFromHead(keys: seq<string>)
    requires keys != []
    ensures Weight(keys) == |keys[0]| + 66 + Weight(keys[1..])
  {
    if |keys| > 1 {
      var init := keys[..|keys| - 1];
      WeightFromHead(init);
      assert keys[1..][..|keys| - 2] == init[1..];
    }
  }

  lemma {:induction false} TextLength(keys: seq<string>, m: map<string, Digest>)
    requires forall k :: k in keys ==> k in m
    ensures |Join(FIELD_SEP, FrameParts(keys, m))| == if keys == [] then 0 else Weight(keys) - 1
  {
    if keys != [] {
      WeightFromHead(keys);
      TextLength(keys[1..], m);
      var parts := FrameParts(keys, m);
      assert parts[1..] == FrameParts(keys[1..], m);
      assert |parts[0]| == |keys[0]| + 65;
    }
  }

  function Among(small: set<string>): string -> bool {
    (k: string) => k in small
  }

  lemma {:induction false} SelectedWeight(keys: seq<string>, p: string -> bool)
    ensures |Select(keys, p)| <= |keys|
    ensures Weight(Select(keys, p)) <= Weight(keys)
    ensures |Select(keys, p)| < |keys| ==> Weight(Select(keys, p)) < Weight(keys)
    ensures |Select(keys, p)| == |keys| ==> Select(keys, p) == keys
  {
    if keys != [] {
      var init, last := keys[..|keys| - 1], keys[|keys| - 1];
      SelectedWeight(init, p);
      SelectMembers(init, p);
      var sel := Select(init, p);
      assert (sel + [last])[..|sel|] == sel;
    }
  }

  lemma SelectedTexts(big: set<string>, small: set<string>)
    requires small <= big
    ensures Select(SortedTexts(big), Among(small)) == SortedTexts(small)
  {
    hide SortedTexts, Select, TextLe;
    var p := Among(small);
    TextLeIsTotalOrder();
    SelectMembers(SortedTexts(big), p);
    SelectAscends(SortedTexts(big), p, TextLe);
    SelectDistinct(SortedTexts(big), p);
    AscendingUnique(Select(SortedTexts(big), p), SortedTexts(small), TextLe);
  }

  lemma {:induction false} SameKeysSameParts(keys: seq<string>, m: map<string, Digest>, n: map<string, Digest>)
    requires forall k :: k in keys ==> k in m && k in n
    requires Join(FIELD_SEP, FrameParts(keys, m)) == Join(FIELD_SEP, FrameParts(keys, n))
    ensures FrameParts(keys, m) == FrameParts(keys, n)
  {
    var p, q := FrameParts(keys, m), FrameParts(keys, n);
    if |keys| > 1 {
      assert |p[0]| == |q[0]|;
      assert p[1..] == FrameParts(keys[1..], m) && q[1..] == FrameParts(keys[1..], n);
      var s, t := p[0] + [FIELD_SEP] + Join(FIELD_SEP, p[1..]), q[0] + [FIELD_SEP] + Join(FIELD_SEP, q[1..]);
      assert s[..|p[0]|] == p[0] && t[..|q[0]|] == q[0];
      assert s[|p[0]| + 1..] == Join(FIELD_SEP, p[1..]) && t[|q[0]| + 1..] == Join(FIELD_SEP, q[1..]);
      SameKeysSameParts(keys[1..], m, n);
      assert p == [p[0]] + p[1..] && q == [q[0]] + q[1..];
    }
  }

  lemma SameTextSameKeys(m: map<string, Digest>, n: map<string, Digest>)
    requires n.Keys <= m.Keys
    requires FrameFingerprint(m) == FrameFingerprint(n)
    ensures SortedTexts(m.Keys) == SortedTexts(n.Keys)
  {
    hide SortedTexts, FrameParts, Join, TextLe;
    var a, b := SortedTexts(m.Keys), SortedTexts(n.Keys);
    TextLength(a, m);
    TextLength(b, n);
    SelectedTexts(m.Keys, n.Keys);
    SelectedWeight(a, Among(n.Keys));
    PositiveWeight(a);
    PositiveWeight(b);
  }

  lemma PositiveWeight(keys: seq<string>)
    ensures keys != [] ==> Weight(keys) >= 66
    ensures keys == [] ==> Weight(keys) == 0
  {
  }

  /** When one frame's position texts are among the other's, the two fingerprint alike
      exactly when they hold the same digests under the same texts. */
  lemma NestedFingerprints(m: map<string, Digest>, n: map<string, Digest>)
    requires n.Keys <= m.Keys
    ensures FrameFingerprint(m) == FrameFingerprint(n) <==> m == n
  {
    hide SortedTexts, FrameParts, Join, TextLe;
    if FrameFingerprint(m) == FrameFingerprint(n) {
      SameTextSameKeys(m, n);
      SameKeysSameParts(SortedTexts(m.Keys), m, n);
      SamePartsSameMap(m, n);
    }
  }

  // ----- frames over any positions

  /** A digest and a record separator inside a key: a place where one part could be read
      as two. */
  ghost predicate CutAt(key: string, i: nat) {
    65 <= i < |key| && key[i] == FIELD_SEP && key[i - 65] == '='
    && forall j :: i - 64 <= j < i ==> IsHex(key[j])
  }

  ghost predicate Uncut(key: string) {
    forall i: nat :: !CutAt(key, i)
  }

  /** A part of a frame's text: a key, "=" and a digest. */
  ghost predicate IsPart(part: string) {
    |part| >= 65 && part[|part| - 65] == '=' && forall j :: |part| - 64 <= j < |part| ==> IsHex(part[j])
  }

  lemma FramePartsArePartsOf(keys: seq<string>, m: map<string, Digest>, i: nat)
    requires forall k :: k in keys ==> k in m
    requires i < |keys|
    ensures var part := FrameParts(keys, m)[i];
            IsPart(part) && part[..|part| - 65] == keys[i]
  {
    var d: Digest := m[keys[i]];
    var part := FrameParts(keys, m)[i];
    forall j | |part| - 64 <= j < |part|
      ensures IsHex(part[j])
    {
      assert part[j] == d[j - (|part| - 64)];
    }
  }

  ghost predicate AllParts(parts: seq<string>) {
    forall i :: 0 <= i < |parts| ==> IsPart(parts[i])
  }

  ghost predicate AllUncut(parts: seq<string>) {
    forall i :: 0 <= i < |parts| ==> IsPart(parts[i]) && Uncut(parts[i][..|parts[i]| - 65])
  }

  /** What remains of a part after a shorter part and a separator is a part itself. */
  lemma RestIsPart(a: string, z: string)
    requires IsPart(a + [FIELD_SEP] + z)
    ensures IsPart(z)
  {
    var b := a + [FIELD_SEP] + z;
    assert b[|a|] == FIELD_SEP;
    assert |z| >= 65;
    forall j | |z| - 64 <= j < |z|
      ensures IsHex(z[j])
    {
      assert z[j] == b[j + |a| + 1];
    }
    assert z[|z| - 65] == b[|b| - 65];
  }

  /** A part that continues beyond another part and a separator has a cut in its key. */
  lemma LongerPartIsCut(b: string, z: string)
    requires IsPart(b) && IsPart(b + [FIELD_SEP] + z)
    ensures var a := b + [FIELD_SEP] + z; !Uncut(a[..|a| - 65])
  {
    var a := b + [FIELD_SEP] + z;
    RestIsPart(b, z);
    var key := a[..|a| - 65];
    assert key[|b|] == FIELD_SEP;
    assert key[|b| - 65] == b[|b| - 65];
    forall j | |b| - 64 <= j < |b|
      ensures IsHex(key[j])
    {
      assert key[j] == b[j];
    }
    assert CutAt(key, |b|);
  }

  lemma FirstPart(sep: char, a: string, x: string, b: string, y: string) returns (z: string)
    requires a + [sep] + x == b + [sep] + y
    ensures (a == b && x == y) || (b == a + [sep] + z && x == z + [sep] + y) || a == b + [sep] + z
  {
    var s, t := a + [sep] + x, b + [sep] + y;
    if |a| == |b| {
      assert a == s[..|a|] == t[..|b|] == b && x == s[|a| + 1..] == y;
      z := "";
    } else if |a| < |b| {
      z := b[|a| + 1..];
      assert b == t[..|b|] == s[..|b|];
      assert s[|a|] == sep;
      assert x == s[|a| + 1..] && y == t[|b| + 1..];
    } else {
      z := a[|b| + 1..];
      assert a == s[..|a|] == t[..|a|];
      assert t[|b|] == sep;
    }
  }

  lemma {:induction false} NoOtherReading(a: seq<string>, b: seq<string>)
    requires a != [] && |b| >= |a| && AllUncut(a) && AllParts(b)
    requires Join(FIELD_SEP, a) == Join(FIELD_SEP, b)
    ensures a == b
    decreases |a|
  {
    hide IsPart, Uncut;
    if |b| > 1 {
      var tail := Join(FIELD_SEP, b[1..]);
      if |a| == 1 {
        LongerPartIsCut(b[0], tail);
      } else {
        var z := FirstPart(FIELD_SEP, a[0], Join(FIELD_SEP, a[1..]), b[0], tail);
        if b[0] == a[0] + [FIELD_SEP] + z && Join(FIELD_SEP, a[1..]) == z + [FIELD_SEP] + tail {
          RestIsPart(a[0], z);
          var rest := [z] + b[1..];
          assert rest[1..] == b[1..];
          NoOtherReading(a[1..], rest);
        } else if a[0] == b[0] + [FIELD_SEP] + z {
          LongerPartIsCut(b[0], z);
        } else {
          NoOtherReading(a[1..], b[1..]);
          assert a == [a[0]] + a[1..] && b == [b[0]] + b[1..];
        }
      }
    }
  }

  lemma FramePartsAreParts(keys: seq<string>, m: map<string, Digest>)
    requires forall k :: k in keys ==> k in m
    ensures AllParts(FrameParts(keys, m))
  {
    hide IsPart;
    forall i | 0 <= i < |keys|
      ensures IsPart(FrameParts(keys, m)[i])
    {
      FramePartsArePartsOf(keys, m, i);
    }
  }

  lemma FramePartsUncut(keys: seq<string>, m: map<string, Digest>)
    requires forall k :: k in keys ==> k in m && Uncut(k)
    ensures AllUncut(FrameParts(keys, m))
  {
    hide Uncut;
    forall i | 0 <= i < |keys|
      ensures var part := FrameParts(keys, m)[i];
              IsPart(part) && Uncut(part[..|part| - 65])
    {
      assert keys[i] in keys;
      FramePartsArePartsOf(keys, m, i);
    }
  }

  /** A frame none of whose position texts is cut shares its fingerprint with no other
      frame of at least as many positions. */
  lemma UncutFingerprintExclusive(m: map<string, Digest>, n: map<string, Digest>)
    requires |n| >= |m|
    requires forall k :: k in m ==> Uncut(k)
    ensures FrameFingerprint(m) == FrameFingerprint(n) <==> m == n
  {
    hide SortedTexts, Join, TextLe, Uncut, AllUncut, AllParts, FrameParts, Weight;
    var a, b := SortedTexts(m.Keys), SortedTexts(n.Keys);
    FramePartsUncut(a, m);
    FramePartsAreParts(b, n);
    if FrameFingerprint(m) == FrameFingerprint(n) {
      TextLength(a, m);
      TextLength(b, n);
      PositiveWeight(b);
      if a != [] {
        NoOtherReading(FrameParts(a, m), FrameParts(b, n));
      }
      SamePartsSameMap(m, n);
    }
  }

  function CutText(y: string, d: Digest, z: string): string {
    y + "=" + d + [FIELD_SEP] + z
  }

  lemma CutTextIsCut(y: string, d: Digest, z: string)
    ensures !Uncut(CutText(y, d, z))
  {
    var cut := CutText(y, d, z);
    forall j | |y| + 1 <= j < |y| + 65
      ensures IsHex(cut[j])
    {
      assert cut[j] == d[j - |y| - 1];
    }
    assert CutAt(cut, |y| + 65);
  }

  lemma TextOfOne(x: string, m: map<string, Digest>)
    requires m.Keys == {x}
    ensures FrameFingerprint(m) == x + "=" + m[x]
  {
    hide SortedTexts;
    SortedOne(x);
  }

  lemma TextOfTwo(y: string, z: string, m: map<string, Digest>)
    requires y != z && TextLe(y, z) && m.Keys == {y, z}
    ensures FrameFingerprint(m) == y + "=" + m[y] + [FIELD_SEP] + (z + "=" + m[z])
  {
    hide SortedTexts, TextLe;
    SortedTwo(y, z);
    var keys := [y, z];
    assert keys[0] == y && keys[1] == z;
    var parts := FrameParts(keys, m);
    assert |parts| == 2 && parts[0] == y + "=" + m[y] && parts[1] == z + "=" + m[z];
    assert parts[1..] == [parts[1]];
    assert FrameFingerprint(m) == Join(FIELD_SEP, parts);
    assert Join(FIELD_SEP, parts) == parts[0] + [FIELD_SEP] + Join(FIELD_SEP, parts[1..]);
    assert Join(FIELD_SEP, [parts[1]]) == parts[1];
  }

  /** A cut text does clash: one position with it reads as two positions. */
  lemma CutTextClashes(y: string, z: string, d: Digest, e: Digest)
    requires y != z && TextLe(y, z)
    ensures var one, two := map[CutText(y, d, z) := e], map[y := d, z := e];
            !Uncut(CutText(y, d, z)) && |one| < |two| && FrameFingerprint(one) == FrameFingerprint(two)
  {
    hide FrameFingerprint, TextLe, Uncut;
    CutTextIsCut(y, d, z);
    var one, two := map[CutText(y, d, z) := e], map[y := d, z := e];
    TextOfOne(CutText(y, d, z), one);
    TextOfTwo(y, z, two);
    assert one.Keys == {CutText(y, d, z)} && two.Keys == {y, z};
    assert CutText(y, d, z) + "=" + e == y + "=" + d + [FIELD_SEP] + (z + "=" + e);
  }

  lemma SortedOne(x: string)
    ensures SortedTexts({x}) == [x]
  {
    hide SortedTexts, TextLe;
    TextLeIsTotalOrder();
    AscendingUnique(SortedTexts({x}), [x], TextLe);
  }

  lemma SortedTwo(x: string, y: string)
    requires x != y && TextLe(x, y)
    ensures SortedTexts({x, y}) == [x, y]
  {
    hide SortedTexts, TextLe;
    TextLeIsTotalOrder();
    AscendingUnique(SortedTexts({x, y}), [x, y], TextLe);
  }

  // ----- positions as text

  ghost predicate TextInjective(ps: set<Position>) {
    forall p, q :: p in ps && q in ps && p.Text() == q.Text() ==> p == q
  }

  predicate SlashSAt(c: string, i: int) {
    0 <= i && i + 1 < |c| && c[i] == '/' && c[i + 1] == 'S'
  }

  ghost predicate ContainsSlashS(c: string) {
    exists i :: SlashSAt(c, i)
  }

  lemma ShorterConnector(p: Position, q: Position)
    requires p.Text() == q.Text()
    requires |p.connector| <= |q.connector|
    requires !ContainsSlashS(q.connector)
    ensures p == q
  {
    var t, u := p.Text(), q.Text();
    var m, n := |p.connector|, |q.connector|;
    assert t[m + 1] == '/' && t[m + 2] == 'S' && u[n + 1] == '/' && u[n + 2] == 'S';
    assert forall i :: 0 <= i < m ==> t[i + 1] == p.connector[i];
    assert forall i :: 0 <= i < n ==> u[i + 1] == q.connector[i];
    var inside := SlashSAt(q.connector, m);
    assert m == n;
    assert p.connector == t[1..m + 1] && q.connector == u[1..n + 1];
    assert p.smr == t[m + 3..] && q.smr == u[n + 3..];
  }

  /** A connector id without "/S" in it cannot be confused with another one. */
  lemma TextReadsBack(p: Position, q: Position)
    requires !ContainsSlashS(p.connector) && !ContainsSlashS(q.connector)
    ensures p.Text() == q.Text() <==> p == q
  {
    if p.Text() == q.Text() {
      if |p.connector| <= |q.connector| {
        ShorterConnector(p, q);
      } else {
        ShorterConnector(q, p);
      }
    }
  }

  /** The dictionary handed to the fingerprint: later positions overwrite earlier
      ones that render to the same text. */
  function PositionFingerprints(order: seq<Position>, payload: map<Position, Digest>): (m: map<string, Digest>)
    requires forall p :: p in order ==> p in payload
    ensures m.Keys == Texts(order)
  {
    if order == [] then map[]
    else
      var init, last := order[..|order| - 1], order[|order| - 1];
      assert order == init + [last];
      assert Texts(order) == Texts(init) + {last.Text()};
      PositionFingerprints(init, payload)[last.Text() := payload[last]]
  }

  ghost function Texts(order: seq<Position>): set<string> {
    set p | p in order :: p.Text()
  }

  lemma {:induction false} FingerprintAt(order: seq<Position>, payload: map<Position, Digest>, p: Position)
    requires forall q :: q in order ==> q in payload
    requires TextInjective(payload.Keys)
    requires p in order
    ensures PositionFingerprints(order, payload)[p.Text()] == payload[p]
  {
    var init, last := order[..|order| - 1], order[|order| - 1];
    if p != last {
      assert p in init;
      assert p.Text() != last.Text();
      FingerprintAt(init, payload, p);
    }
  }

  /** What that dictionary holds when no two positions render alike. */
  ghost function Dictionary(payload: map<Position, Digest>): (m: map<string, Digest>)
    requires TextInjective(payload.Keys)
  {
    map p | p in payload :: p.Text() := payload[p]
  }

  ghost predicate Lists(order: seq<Position>, payload: map<Position, Digest>) {
    && (forall p :: p in order ==> p in payload)
    && (forall p :: p in payload ==> p in order)
  }

  lemma DictionaryIgnoresOrder(order: seq<Position>, payload: map<Position, Digest>)
    requires Lists(order, payload)
    requires TextInjective(payload.Keys)
    ensures PositionFingerprints(order, payload) == Dictionary(payload)
  {
    var f, d := PositionFingerprints(order, payload), Dictionary(payload);
    assert f.Keys == d.Keys;
    forall k | k in d
      ensures f[k] == d[k]
    {
      var p :| p in payload && p.Text() == k;
      FingerprintAt(order, payload, p);
    }
  }

  lemma DictionaryInjective(m: map<Position, Digest>, n: map<Position, Digest>)
    requires TextInjective(m.Keys + n.Keys)
    requires Dictionary(m) == Dictionary(n)
    ensures forall p :: p in m ==> p in n && n[p] == m[p]
  {
    var d, e := Dictionary(m), Dictionary(n);
    forall p | p in m
      ensures p in n && n[p] == m[p]
    {
      assert p.Text() in d;
      assert p.Text() in e;
      var q :| q in n && q.Text() == p.Text();
      assert q in m.Keys + n.Keys && p in m.Keys + n.Keys;
    }
  }

  lemma SameDictionary(m: map<Position, Digest>, n: map<Position, Digest>)
    requires TextInjective(m.Keys + n.Keys)
    ensures TextInjective(m.Keys) && TextInjective(n.Keys)
    ensures Dictionary(m) == Dictionary(n) <==> m == n
  {
    if Dictionary(m) == Dictionary(n) {
      DictionaryInjective(m, n);
      DictionaryInjective(n, m);
      assert m.Keys == n.Keys;
    }
  }

  /** The fingerprint a frame gets from its rows, listed in dictionary order. */
  function PayloadFingerprint(order: seq<Position>, payload: map<Position, Digest>): string
    requires forall p :: p in order ==> p in payload
  {
    FrameFingerprint(PositionFingerprints(order, payload))
  }

  /** Over nested positions with different texts, equal fingerprints mean equal payloads. */
  lemma SamePayload(a: seq<Position>, m: map<Position, Digest>, b: seq<Position>, n: map<Position, Digest>)
    requires Lists(a, m) && Lists(b, n)
    requires n.Keys <= m.Keys && TextInjective(m.Keys)
    ensures PayloadFingerprint(a, m) == PayloadFingerprint(b, n) <==> m == n
  {
    assert m.Keys + n.Keys == m.Keys;
    SameDictionary(m, n);
    DictionaryIgnoresOrder(a, m);
    DictionaryIgnoresOrder(b, n);
    var d, e := Dictionary(m), Dictionary(n);
    assert e.Keys <= d.Keys;
    NestedFingerprints(d, e);
  }
}
