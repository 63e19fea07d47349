/** Rendering a numeric literal in one canonical form, with decimal arithmetic of 28
    significant digits. */
module Numerals {
  import opened Text
  import opened FrameModels
  import opened Rounding

  const PRECISION: nat := 28

  /** `(-1)^negative * coefficient * 10^exponent`. */
  datatype Decimal = Decimal(negative: bool, coefficient: nat, exponent: int)

  function Pow10(n: nat): (p: nat)
    ensures p > 0
  {
    if n == 0 then 1 else 10 * Pow10(n - 1)
  }

  // ----- reading a literal

  function RemoveUnderscores(s: string): string {
    if s == [] then []
    else RemoveUnderscores(s[..|s| - 1]) + if s[|s| - 1] == '_' then [] else [s[|s| - 1]]
  }

  /** How many digits a text begins with. */
  function DigitRun(s: string): (n: nat)
    ensures n <= |s| && AllDigits(s[..n])
  {
    if s != [] && IsDigit(s[0]) then
      assert s[..1 + DigitRun(s[1..])] == [s[0]] + s[1..][..DigitRun(s[1..])];
      1 + DigitRun(s[1..])
    else 0
  }

  predicate IsSign(c: char) {
    c == '+' || c == '-'
  }

  function ReadExponent(s: string): Option<int> {
    if s == [] then Some(0)
    else if s[0] != 'e' && s[0] != 'E' then None
    else
      var signed := |s| > 1 && IsSign(s[1]);
      var digits := if signed then s[2..] else s[1..];
      if digits == [] || !AllDigits(digits) then None
      else
        var magnitude: int := NatValue(digits);
        Some(if signed && s[1] == '-' then -magnitude else magnitude)
  }

  datatype Parts = Parts(whole: string, fraction: string, tail: string)

  /** The digits before the point, those after it if there is one, and the rest. */
  function Split(s: string): (p: Parts)
    ensures AllDigits(p.whole) && AllDigits(p.fraction)
  {
    var i := DigitRun(s);
    if i < |s| && s[i] == '.' then
      var rest := s[i + 1..];
      Parts(s[..i], rest[..DigitRun(rest)], rest[DigitRun(rest)..])
    else Parts(s[..i], "", s[i..])
  }

  function ReadUnsigned(s: string, negative: bool): Option<Decimal> {
    var p := Split(s);
    if p.whole + p.fraction == [] then None
    else
      var exponent := ReadExponent(p.tail);
      if exponent.None? then None
      else Some(Decimal(negative, NatValue(p.whole + p.fraction), exponent.value - |p.fraction|))
  }

  /** A finite decimal literal; anything else, infinities and NaNs included, is `None`. */
  function Read(s: string): Option<Decimal> {
    if s != [] && IsSign(s[0]) then ReadUnsigned(s[1..], s[0] == '-') else ReadUnsigned(s, false)
  }

  function ReadRaw(raw: string): Option<Decimal> {
    Read(RemoveUnderscores(Strip(raw)))
  }

  // ----- rounding and normalising

  function DigitCount(n: nat): nat {
    |NatText(n)|
  }

  /** Half-even rounding to the precision. */
  function Rounded(d: Decimal): Decimal {
    var n := DigitCount(d.coefficient);
    if n <= PRECISION then d
    else
      var unit := Pow10(n - PRECISION);
      Decimal(d.negative, HalfEven(d.coefficient, unit), d.exponent + n - PRECISION)
  }

  /** Trailing zeros moved into the exponent. */
  function Normal(d: Decimal): (r: Decimal)
    requires d.coefficient > 0
    ensures r.coefficient % 10 != 0 && r.coefficient > 0
    ensures r.negative == d.negative
    decreases d.coefficient
  {
    if d.coefficient % 10 == 0
    then Normal(Decimal(d.negative, d.coefficient / 10, d.exponent + 1))
    else d
  }

  function Zeros(n: nat): (s: string)
    ensures |s| == n && AllDigits(s)
  {
    if n == 0 then "" else "0" + Zeros(n - 1)
  }

  /** The digits of a coefficient, with at least one before the decimal point. */
  function Padded(c: nat, places: nat): (p: string)
    ensures |p| > places && AllDigits(p)
  {
    var s := NatText(c);
    if |s| > places then s else Zeros(places + 1 - |s|) + s
  }

  /** Plain positional notation. */
  function Layout(d: Decimal): string {
    (if d.negative then "-" else "")
    + if d.exponent >= 0 then NatText(d.coefficient * Pow10(d.exponent))
      else
        var p := Padded(d.coefficient, -d.exponent);
        p[..|p| + d.exponent] + "." + p[|p| + d.exponent..]
  }

  datatype Rendering = NotNumeric | InvalidOperation | Rendered(text: string)

  /** Expanding a positive exponent fails when that takes more digits than the
      precision allows. */
  function Render(d: Decimal): Rendering {
    if d.coefficient == 0 then Rendered("0")
    else
      RoundedPositive(d);
      var n := Normal(Rounded(d));
      if n.exponent > 0 && DigitCount(n.coefficient * Pow10(n.exponent)) > PRECISION
      then InvalidOperation
      else Rendered(Layout(n))
  }

  function CanonicalNumber(raw: string): Rendering {
    if Strip(raw) == "" then NotNumeric
    else
      var d := ReadRaw(raw);
      if d.None? then NotNumeric else Render(d.value)
  }

  // ----- powers and digit counts

  lemma {:induction false} DigitCountIff(n: nat, k: nat)
    requires k >= 1
    ensures DigitCount(n) <= k <==> n < Pow10(k)
    decreases n
  {
    if n < 10 {
      PowGrows(1, k);
    } else if k > 1 {
      DigitCountIff(n / 10, k - 1);
    } else {
      assert Pow10(1) == 10;
    }
  }

  lemma {:induction false} PowGrows(j: nat, k: nat)
    requires j <= k
    ensures Pow10(j) <= Pow10(k)
  {
    if j < k {
      PowGrows(j, k - 1);
    }
  }

  lemma {:induction false} PowAdds(j: nat, k: nat)
    ensures Pow10(j + k) == Pow10(j) * Pow10(k)
  {
    if j > 0 {
      PowAdds(j - 1, k);
      PowStep(j, k);
    }
  }

  lemma PowStep(j: nat, k: nat)
    requires j > 0
    ensures Pow10(j + k) == 10 * Pow10(j - 1 + k)
    ensures Pow10(j) * Pow10(k) == 10 * (Pow10(j - 1) * Pow10(k))
  {
    TenOut(Pow10(j - 1), Pow10(k));
  }

  lemma TenOut(a: nat, b: nat)
    ensures (10 * a) * b == 10 * (a * b)
  {
  }

  lemma RoundedPositive(d: Decimal)
    requires d.coefficient > 0
    ensures Rounded(d).coefficient > 0
    ensures Rounded(d).coefficient <= Pow10(PRECISION)
    ensures Rounded(d).negative == d.negative
  {
    hide NatText, Pow10;
    var c, n := d.coefficient, DigitCount(d.coefficient);
    DigitCountIff(c, PRECISION);
    if n > PRECISION {
      DigitCountIff(c, n);
      DigitCountIff(c, n - 1);
      PowAdds(PRECISION, n - PRECISION);
      PowAdds(PRECISION - 1, n - PRECISION);
      QuotientBetween(c, Pow10(n - PRECISION), Pow10(PRECISION - 1), Pow10(PRECISION));
    }
  }

  lemma QuotientBetween(c: nat, unit: nat, low: nat, high: nat)
    requires unit > 0 && low > 0
    requires low * unit <= c < high * unit
    ensures low <= c / unit < high
  {
    var q := c / unit;
    assert c == q * unit + c % unit;
    TimesGrows(high, q, unit);
    TimesGrows(q + 1, low, unit);
  }

  lemma TimesGrows(x: nat, y: nat, unit: nat)
    ensures x <= y ==> x * unit <= y * unit
  {
  }

  // ----- the same number

  /** The coefficient at a lower exponent. */
  function Scaled(d: Decimal, exponent: int): nat
    requires exponent <= d.exponent
  {
    d.coefficient * Pow10(d.exponent - exponent)
  }

  function Lower(x: int, y: int): int {
    if x <= y then x else y
  }

  predicate SameNumber(x: Decimal, y: Decimal) {
    var m := Lower(x.exponent, y.exponent);
    Scaled(x, m) == Scaled(y, m) && (x.negative == y.negative || x.coefficient == 0)
  }

  lemma {:induction false} NormalShifts(d: Decimal) returns (k: nat)
    requires d.coefficient > 0
    ensures Normal(d).exponent == d.exponent + k
    ensures d.coefficient == Normal(d).coefficient * Pow10(k)
    decreases d.coefficient
  {
    if d.coefficient % 10 == 0 {
      var j := NormalShifts(Decimal(d.negative, d.coefficient / 10, d.exponent + 1));
      k := j + 1;
      var a, p := Normal(d).coefficient, Pow10(j);
      assert 10 * (a * p) == a * (10 * p);
    } else {
      k := 0;
    }
  }

  /** Numerals that do not end in zero determine the power of ten beside them. */
  lemma {:induction false} PowerUnique(a: nat, b: nat, i: nat, j: nat)
    requires a % 10 != 0 && b % 10 != 0
    requires a * Pow10(i) == b * Pow10(j)
    ensures i == j && a == b
    decreases i + j
  {
    if i > 0 && j > 0 {
      TimesTen(a, i);
      TimesTen(b, j);
      PowerUnique(a, b, i - 1, j - 1);
    } else if i > 0 {
      TimesTen(a, i);
      TenDivides(a * Pow10(i - 1));
    } else if j > 0 {
      TimesTen(b, j);
      TenDivides(b * Pow10(j - 1));
    }
  }

  lemma TimesTen(a: nat, i: nat)
    requires i > 0
    ensures a * Pow10(i) == 10 * (a * Pow10(i - 1))
  {
    assert a * (10 * Pow10(i - 1)) == 10 * (a * Pow10(i - 1));
  }

  lemma TenDivides(x: nat)
    ensures (10 * x) % 10 == 0
  {
  }

  lemma ScaledNormal(d: Decimal, exponent: int)
    requires d.coefficient > 0 && exponent <= d.exponent
    ensures exponent <= Normal(d).exponent
    ensures Scaled(d, exponent) == Normal(d).coefficient * Pow10(Normal(d).exponent - exponent)
  {
    hide Normal;
    var k := NormalShifts(d);
    var a, m := Normal(d).coefficient, d.exponent - exponent;
    PowAdds(k, m);
    assert (a * Pow10(k)) * Pow10(m) == a * (Pow10(k) * Pow10(m));
  }

  /** Two numbers are the same exactly when their normal forms are. */
  lemma SameIffNormal(x: Decimal, y: Decimal)
    requires x.coefficient > 0 && y.coefficient > 0
    ensures SameNumber(x, y) <==> Normal(x) == Normal(y)
  {
    hide Normal, Pow10, Scaled;
    var m := Lower(x.exponent, y.exponent);
    ScaledNormal(x, m);
    ScaledNormal(y, m);
    if SameNumber(x, y) {
      PowerUnique(Normal(x).coefficient, Normal(y).coefficient, Normal(x).exponent - m, Normal(y).exponent - m);
    }
  }

  lemma ZeroIsZero(x: Decimal, y: Decimal)
    requires SameNumber(x, y)
    ensures x.coefficient == 0 <==> y.coefficient == 0
  {
    var m := Lower(x.exponent, y.exponent);
    TimesPositive(x.coefficient, Pow10(x.exponent - m));
    TimesPositive(y.coefficient, Pow10(y.exponent - m));
  }

  lemma TimesPositive(x: nat, p: nat)
    requires p > 0
    ensures x * p == 0 <==> x == 0
  {
  }

  // ----- reading what was laid out

  lemma {:induction false} ZerosAddNothing(n: nat, s: string)
    requires AllDigits(s)
    ensures AllDigits(Zeros(n) + s)
    ensures NatValue(Zeros(n) + s) == NatValue(s)
    decreases n, |s|
  {
    if s == [] {
      assert Zeros(n) + s == Zeros(n);
      ZerosAreZero(n);
    } else {
      var init := s[..|s| - 1];
      ZerosAddNothing(n, init);
      assert (Zeros(n) + s)[..n + |s| - 1] == Zeros(n) + init;
    }
  }

  lemma {:induction false} ZerosAreZero(n: nat)
    ensures NatValue(Zeros(n)) == 0
  {
    if n > 0 {
      ZerosAreZero(n - 1);
      ZerosFromEnd(n);
    }
  }

  lemma {:induction false} ZerosFromEnd(n: nat)
    requires n > 0
    ensures Zeros(n) == Zeros(n - 1) + "0"
  {
    if n > 1 {
      ZerosFromEnd(n - 1);
    }
  }

  lemma PaddedReadsBack(c: nat, places: nat)
    ensures NatValue(Padded(c, places)) == c
  {
    hide NatText, Zeros, NatValue;
    NatTextReadsBack(c);
    var s := NatText(c);
    if |s| <= places {
      ZerosAddNothing(places + 1 - |s|, s);
    }
  }

  lemma {:induction false} DigitRunIs(p: string, rest: string)
    requires AllDigits(p) && (rest == [] || !IsDigit(rest[0]))
    ensures DigitRun(p + rest) == |p|
  {
    if p == [] {
      assert p + rest == rest;
    } else {
      DigitRunIs(p[1..], rest);
      assert (p + rest)[1..] == p[1..] + rest;
    }
  }

  lemma SplitPointed(a: string, b: string)
    requires AllDigits(a) && AllDigits(b)
    ensures Split(a + "." + b) == Parts(a, b, "")
    ensures Split(a) == Parts(a, "", "")
  {
    var s := a + "." + b;
    DigitRunIs(a, "." + b);
    assert s == a + ("." + b);
    assert s[|a|] == '.' && s[|a| + 1..] == b && s[..|a|] == a;
    DigitRunIs(b, []);
    assert b + [] == b && b[..|b|] == b && b[|b|..] == [];
    DigitRunIs(a, []);
    assert a + [] == a && a[..|a|] == a && a[|a|..] == [];
  }

  lemma ReadWhole(p: string, negative: bool)
    requires p != [] && AllDigits(p)
    ensures ReadUnsigned(p, negative) == Some(Decimal(negative, NatValue(p), 0))
  {
    hide Split;
    SplitPointed(p, "");
    assert p + "" == p;
  }

  lemma ReadPointed(a: string, b: string, negative: bool)
    requires a != [] && AllDigits(a) && AllDigits(b)
    ensures AllDigits(a + b)
    ensures ReadUnsigned(a + "." + b, negative) == Some(Decimal(negative, NatValue(a + b), 0 - |b|))
  {
    hide Split, NatValue;
    SplitPointed(a, b);
  }

  /** Laying a normal number out and reading it gives the number back. */
  lemma LayoutReadsBack(d: Decimal)
    ensures Read(Layout(d))
            == Some(if d.exponent >= 0 then Decimal(d.negative, Scaled(d, 0), 0) else d)
  {
    hide NatText, NatValue, ReadUnsigned, Padded;
    if d.exponent >= 0 {
      var n := d.coefficient * Pow10(d.exponent);
      NatTextReadsBack(n);
      ReadWhole(NatText(n), d.negative);
      SignedRead(NatText(n), d.negative);
    } else {
      var p := Padded(d.coefficient, -d.exponent);
      PaddedReadsBack(d.coefficient, -d.exponent);
      var a, b := p[..|p| + d.exponent], p[|p| + d.exponent..];
      assert p == a + b;
      ReadPointed(a, b, d.negative);
      var s := a + "." + b;
      assert s[0] == p[0];
      SignedRead(s, d.negative);
    }
  }

  lemma SignedRead(s: string, negative: bool)
    requires s != [] && IsDigit(s[0])
    ensures Read((if negative then "-" else "") + s) == ReadUnsigned(s, negative)
  {
    hide ReadUnsigned;
    if negative {
      assert ("-" + s)[1..] == s;
    } else {
      assert "" + s == s;
    }
  }

  predicate IsPlain(c: char) {
    IsDigit(c) || c == '-' || c == '.'
  }

  ghost predicate Plain(s: string) {
    s != [] && forall i :: 0 <= i < |s| ==> IsPlain(s[i])
  }

  lemma LayoutPlain(d: Decimal)
    ensures Plain(Layout(d))
  {
    hide NatText, Padded;
    if d.exponent >= 0 {
      assert AllDigits(NatText(d.coefficient * Pow10(d.exponent)));
    } else {
      assert AllDigits(Padded(d.coefficient, -d.exponent));
    }
  }

  lemma {:induction false} NoUnderscores(s: string)
    requires forall i :: 0 <= i < |s| ==> s[i] != '_'
    ensures RemoveUnderscores(s) == s
  {
    if s != [] {
      NoUnderscores(s[..|s| - 1]);
    }
  }

  lemma PlainReadsAsIs(s: string)
    requires Plain(s)
    ensures Strip(s) == s && ReadRaw(s) == Read(s)
  {
    hide Read;
    assert IsPlain(s[0]) && IsPlain(s[|s| - 1]);
    StripTrimmed(s);
    forall i | 0 <= i < |s|
      ensures s[i] != '_'
    {
      assert IsPlain(s[i]);
    }
    NoUnderscores(s);
  }

  // ----- what a canonical number means

  lemma NormalOfRounded(d: Decimal)
    requires d.coefficient > 0
    ensures Rounded(d).coefficient > 0
    ensures Normal(Rounded(d)).coefficient < Pow10(PRECISION)
    ensures SameNumber(Normal(Rounded(d)), Rounded(d))
  {
    hide Rounded, Normal, SameNumber;
    RoundedPositive(d);
    var r := Rounded(d);
    var n := Normal(r);
    NormalIsNormal(n);
    SameIffNormal(n, r);
    var k := NormalShifts(r);
    if k == 0 {
      TenDividesPower(PRECISION);
      assert n.coefficient * Pow10(0) == n.coefficient;
    } else {
      TimesTen(n.coefficient, k);
      TimesGrows(1, Pow10(k - 1), n.coefficient);
      assert r.coefficient >= 10 * n.coefficient;
    }
  }

  lemma TenDividesPower(k: nat)
    requires k > 0
    ensures Pow10(k) % 10 == 0
  {
    TenDivides(Pow10(k - 1));
  }

  lemma NormalIsNormal(n: Decimal)
    requires n.coefficient % 10 != 0
    ensures n.coefficient > 0 && Normal(n) == n
  {
  }

  /** What a rendering reads as: a decimal within the precision, equal to the rounded
      literal. */
  lemma RenderedReadsBack(d: Decimal) returns (z: Decimal)
    requires Render(d).Rendered?
    ensures ReadRaw(Render(d).text) == Some(z) && Strip(Render(d).text) != ""
    ensures SameNumber(z, Rounded(d))
    ensures DigitCount(z.coefficient) <= PRECISION
    ensures d.coefficient == 0 <==> z.coefficient == 0
  {
    hide Layout, Read, ReadRaw, NatText, Normal, Rounded, Pow10;
    if d.coefficient == 0 {
      z := ReadZero(d);
    } else {
      NormalOfRounded(d);
      var n := Normal(Rounded(d));
      LayoutReadsBack(n);
      LayoutPlain(n);
      PlainReadsAsIs(Layout(n));
      DigitCountIff(n.coefficient, PRECISION);
      z := if n.exponent >= 0 then Decimal(n.negative, Scaled(n, 0), 0) else n;
      ExpandedSame(n, Rounded(d));
    }
  }

  lemma ReadZero(d: Decimal) returns (z: Decimal)
    requires d.coefficient == 0
    ensures ReadRaw("0") == Some(z) && Strip("0") != ""
    ensures SameNumber(z, Rounded(d)) && z.coefficient == 0
    ensures DigitCount(z.coefficient) <= PRECISION
  {
    z := Decimal(false, 0, 0);
    PlainReadsAsIs("0");
    ReadWhole("0", false);
    assert "0"[..0] == "";
    SignedRead("0", false);
  }

  lemma ExpandedSame(n: Decimal, r: Decimal)
    requires n.coefficient > 0 && r.coefficient > 0
    requires SameNumber(n, r)
    ensures n.exponent >= 0 ==> SameNumber(Decimal(n.negative, Scaled(n, 0), 0), r) && Scaled(n, 0) > 0
    ensures n.exponent == 0 ==> Scaled(n, 0) == n.coefficient
  {
    hide Normal, SameNumber;
    if n.exponent >= 0 {
      TimesPositive(n.coefficient, Pow10(n.exponent));
      var e := Decimal(n.negative, Scaled(n, 0), 0);
      ExpansionSame(n, e);
      SameIffNormal(n, e);
      SameIffNormal(n, r);
      SameIffNormal(e, r);
    }
  }

  lemma ExpansionSame(n: Decimal, e: Decimal)
    requires n.exponent >= 0 && e == Decimal(n.negative, Scaled(n, 0), 0)
    ensures SameNumber(n, e)
  {
    assert e.coefficient * Pow10(0) == e.coefficient;
  }

  /** Two literals render alike exactly when they denote the same number once rounded. */
  lemma SameTextIffSameRounded(x: Decimal, y: Decimal)
    requires Render(x).Rendered? && Render(y).Rendered?
    ensures Render(x).text == Render(y).text <==> SameNumber(Rounded(x), Rounded(y))
  {
    hide Render, SameNumber, Rounded, ReadRaw;
    var z := RenderedReadsBack(x);
    var w := RenderedReadsBack(y);
    ZeroIsZero(z, Rounded(x));
    ZeroIsZero(w, Rounded(y));
    if x.coefficient > 0 && y.coefficient > 0 {
      SameIffNormal(Rounded(x), Rounded(y));
      SameIffNormal(z, Rounded(x));
      SameIffNormal(w, Rounded(y));
      RenderOfNormal(x, y);
    } else {
      RenderZero(x);
      RenderZero(y);
      ZeroSame(Rounded(x), Rounded(y));
    }
  }

  lemma RenderZero(d: Decimal)
    ensures d.coefficient == 0 ==> Render(d) == Rendered("0")
  {
  }

  lemma ZeroSame(x: Decimal, y: Decimal)
    requires x.coefficient == 0 || y.coefficient == 0
    ensures SameNumber(x, y) <==> x.coefficient == 0 && y.coefficient == 0
  {
    var m := Lower(x.exponent, y.exponent);
    TimesPositive(x.coefficient, Pow10(x.exponent - m));
    TimesPositive(y.coefficient, Pow10(y.exponent - m));
  }

  lemma RenderOfNormal(x: Decimal, y: Decimal)
    requires x.coefficient > 0 && y.coefficient > 0
    requires Rounded(x).coefficient > 0 && Rounded(y).coefficient > 0
    ensures Normal(Rounded(x)) == Normal(Rounded(y)) ==> Render(x) == Render(y)
  {
    hide Normal, Rounded, Layout, NatText;
  }

  /** Within the precision nothing is rounded. */
  lemma RoundedWithin(d: Decimal)
    requires DigitCount(d.coefficient) <= PRECISION
    ensures Rounded(d) == d
  {
  }

  /** For literals within the precision, equal text means the same number. */
  lemma SameTextIffSameNumber(x: Decimal, y: Decimal)
    requires DigitCount(x.coefficient) <= PRECISION && DigitCount(y.coefficient) <= PRECISION
    requires Render(x).Rendered? && Render(y).Rendered?
    ensures Render(x).text == Render(y).text <==> SameNumber(x, y)
  {
    hide Render, SameNumber, Rounded, NatText;
    RoundedWithin(x);
    RoundedWithin(y);
    SameTextIffSameRounded(x, y);
  }

  /** Canonicalising a canonical number changes nothing. */
  lemma CanonicalNumberIdempotent(raw: string)
    requires CanonicalNumber(raw).Rendered?
    ensures CanonicalNumber(CanonicalNumber(raw).text) == CanonicalNumber(raw)
  {
    hide Render, ReadRaw, Strip, SameNumber, Rounded, NatText;
    var d := ReadRaw(raw).value;
    var z := RenderedReadsBack(d);
    RoundedWithin(z);
    ZeroIsZero(z, Rounded(d));
    if d.coefficient == 0 {
      RenderZero(d);
      RenderZero(z);
    } else {
      RoundedPositive(d);
      SameIffNormal(z, Rounded(d));
      RenderOfNormal(d, z);
    }
  }

  /** A canonical number reads back as the number it came from, rounded. */
  lemma CanonicalNumberReadsBack(raw: string)
    requires CanonicalNumber(raw).Rendered?
    ensures ReadRaw(raw).Some? && ReadRaw(CanonicalNumber(raw).text).Some?
    ensures SameNumber(ReadRaw(CanonicalNumber(raw).text).value, Rounded(ReadRaw(raw).value))
  {
    hide Render, ReadRaw, Strip, SameNumber, Rounded;
    var z := RenderedReadsBack(ReadRaw(raw).value);
  }

  // ----- when rounding loses, and when rendering fails

  /** Rounding keeps the number exactly when it has no more significant digits than
      the precision. */
  lemma RoundingKeepsIff(d: Decimal)
    requires d.coefficient > 0
    ensures SameNumber(d, Rounded(d)) <==> DigitCount(Normal(d).coefficient) <= PRECISION
  {
    hide Normal, Rounded, SameNumber, NatText, Pow10;
    NormalOfRounded(d);
    DigitCountIff(Normal(d).coefficient, PRECISION);
    SameIffNormal(d, Rounded(d));
    NormalIsNormal(Normal(Rounded(d)));
    SameIffNormal(Normal(Rounded(d)), Rounded(d));
    if Normal(d).coefficient < Pow10(PRECISION) {
      ShortKeeps(d);
    }
  }

  lemma ShortKeeps(d: Decimal)
    requires d.coefficient > 0 && Normal(d).coefficient < Pow10(PRECISION)
    ensures SameNumber(d, Rounded(d))
  {
    hide Normal, NatText, Pow10;
    var c, n, a := d.coefficient, DigitCount(d.coefficient), Normal(d).coefficient;
    if n <= PRECISION {
      SameSelf(d);
    } else {
      var drop := n - PRECISION;
      var k := NormalShifts(d);
      ManyZeros(c, n, a, k);
      PowAdds(k - drop, drop);
      var q := a * Pow10(k - drop);
      assert c == q * Pow10(drop);
      ExactQuotient(c, q, Pow10(drop));
      SameShifted(d, q, drop);
    }
  }

  lemma SameSelf(d: Decimal)
    ensures SameNumber(d, d)
  {
  }

  lemma SameShifted(d: Decimal, q: nat, drop: nat)
    requires d.coefficient == q * Pow10(drop)
    ensures SameNumber(d, Decimal(d.negative, q, d.exponent + drop))
  {
    assert d.coefficient * Pow10(0) == d.coefficient;
  }

  lemma ExactQuotient(c: nat, q: nat, unit: nat)
    requires unit > 0 && c == q * unit
    ensures c / unit == q && c % unit == 0
  {
    assert c == (c / unit) * unit + c % unit;
    TimesGrows(q + 1, c / unit, unit);
    TimesGrows(c / unit + 1, q, unit);
  }

  /** A long coefficient with few significant digits ends in many zeros. */
  lemma ManyZeros(c: nat, n: nat, a: nat, k: nat)
    requires n == DigitCount(c) > PRECISION
    requires c == a * Pow10(k) && a < Pow10(PRECISION)
    ensures k >= n - PRECISION
  {
    hide NatText, Pow10;
    DigitCountIff(c, n - 1);
    PowAdds(PRECISION, k);
    TimesLess(a, Pow10(PRECISION), Pow10(k));
    if k < n - PRECISION {
      PowGrows(PRECISION + k, n - 1);
    }
  }

  lemma TimesLess(x: nat, y: nat, p: nat)
    requires x < y && p > 0
    ensures x * p < y * p
  {
  }

  /** The magnitude is at least ten to the precision. */
  predicate Huge(d: Decimal) {
    if d.exponent >= 0 then Scaled(d, 0) >= Pow10(PRECISION)
    else d.coefficient >= Pow10(PRECISION) * Pow10(-d.exponent)
  }

  lemma HugeShifted(d: Decimal, a: nat, k: nat)
    requires d.coefficient == a * Pow10(k)
    ensures Huge(d) <==> Huge(Decimal(d.negative, a, d.exponent + k))
  {
    hide Pow10;
    var e := d.exponent;
    if e >= 0 {
      PowAdds(k, e);
      Regroup(a, Pow10(k), Pow10(e));
    } else if e + k >= 0 {
      PowAdds(e + k, -e);
      Regroup(a, Pow10(e + k), Pow10(-e));
      TimesOrder(a * Pow10(e + k), Pow10(PRECISION), Pow10(-e));
    } else {
      PowAdds(-(e + k), k);
      Regroup(Pow10(PRECISION), Pow10(-(e + k)), Pow10(k));
      TimesOrder(a, Pow10(PRECISION) * Pow10(-(e + k)), Pow10(k));
    }
  }

  lemma Regroup(x: nat, y: nat, z: nat)
    ensures x * (y * z) == (x * y) * z
  {
  }

  lemma TimesOrder(x: nat, y: nat, p: nat)
    requires p > 0
    ensures x * p >= y * p <==> x >= y
  {
    TimesGrows(y, x, p);
    if x < y {
      TimesLess(x, y, p);
    }
  }

  /** Rendering fails exactly when the rounded magnitude reaches ten to the 28th. */
  lemma RenderFailsIffHuge(d: Decimal)
    requires d.coefficient > 0
    ensures Render(d).InvalidOperation? <==> Huge(Rounded(d))
  {
    hide Normal, NatText, Pow10, Rounded, Layout;
    NormalOfRounded(d);
    var r := Rounded(d);
    var k := NormalShifts(r);
    var n := Normal(r);
    assert n == Decimal(r.negative, n.coefficient, r.exponent + k);
    HugeShifted(r, n.coefficient, k);
    if n.exponent > 0 {
      DigitCountIff(n.coefficient * Pow10(n.exponent), PRECISION);
    } else if n.exponent == 0 {
      ScaledZero(n);
    } else {
      TimesGrows(1, Pow10(-n.exponent), Pow10(PRECISION));
    }
  }

  lemma ScaledZero(n: Decimal)
    requires n.exponent == 0
    ensures Scaled(n, 0) == n.coefficient
  {
  }
}
