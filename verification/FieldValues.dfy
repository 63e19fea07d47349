/** The canonical text of one field value: absence, numbers, booleans and text. */
module FieldValues {
  import opened Text
  import opened FrameModels
  import opened Numerals
  import HeaderNames

  const NULL_TOKEN := "\U{0}NULL"

  datatype FieldKind = BOOLEAN | NUMERIC | TEXTUAL | UNTYPED

  /** A value, or the failure of decimal arithmetic. */
  datatype Outcome = Failed | Value(text: string)

  function CaseFold(s: string): string {
    HeaderNames.Lower(s)
  }

  function CanonicalBoolean(text: string): string {
    var folded := CaseFold(text);
    if folded in {"1", "true", "t", "yes", "y", "on"} then "TRUE"
    else if folded in {"0", "false", "f", "no", "n", "off"} then "FALSE"
    else text
  }

  /** A missing value, blank text, or one of the configured spellings of absence. */
  predicate IsNull(raw: Option<string>, nulls: set<string>) {
    raw.None? || Strip(raw.value) == "" || CaseFold(Strip(raw.value)) in nulls
  }

  function CanonicalValue(kind: FieldKind, raw: Option<string>, nulls: set<string>): Outcome {
    if IsNull(raw, nulls) then Value(NULL_TOKEN)
    else
      var text := Strip(raw.value);
      match kind
      case BOOLEAN => Value(CanonicalBoolean(text))
      case TEXTUAL => Value(text)
      case _ =>
        match CanonicalNumber(text)
        case NotNumeric => Value(text)
        case InvalidOperation => Failed
        case Rendered(number) => Value(number)
  }

  predicate IsNumber(text: string) {
    ReadRaw(text).Some?
  }

  /** Removing underscores removes nothing else. */
  lemma {:induction false} RemoveKeepsOthers(s: string, c: char)
    requires c != '_' && c in s
    ensures c in RemoveUnderscores(s)
  {
    var init, last := s[..|s| - 1], s[|s| - 1];
    assert s == init + [last];
    if last != c {
      RemoveKeepsOthers(init, c);
    }
  }

  /** What no decimal literal holds. */
  lemma NullTokenIsNoNumber()
    ensures Strip(NULL_TOKEN) == NULL_TOKEN && !IsNumber(NULL_TOKEN)
  {
    StripTrimmed(NULL_TOKEN);
    NoUnderscores(NULL_TOKEN);
    assert DigitRun(NULL_TOKEN) == 0;
  }

  lemma StripTwice(s: string)
    ensures Strip(Strip(s)) == Strip(s)
  {
    hide Strip;
    StripTrims(s);
    StripTrimmed(Strip(s));
  }

  /** What a field of numbers makes of a present value. */
  lemma NumericValue(kind: FieldKind, raw: Option<string>, nulls: set<string>)
    requires kind == NUMERIC || kind == UNTYPED
    requires !IsNull(raw, nulls)
    ensures var text, value := Strip(raw.value), CanonicalValue(kind, raw, nulls);
            && (!IsNumber(text) ==> value == Value(text))
            && (IsNumber(text) ==>
                  && (value.Value? ==> Render(ReadRaw(text).value) == Rendered(value.text))
                  && (value.Failed? ==> Render(ReadRaw(text).value).InvalidOperation?))
  {
    hide Strip, Render, ReadRaw, CaseFold;
    StripTwice(raw.value);
    RenderIsNumeric(ReadRaw(Strip(raw.value)));
  }

  lemma RenderIsNumeric(d: Option<Decimal>)
    ensures d.Some? ==> !Render(d.value).NotNumeric?
  {
    hide Layout, Normal, Rounded, NatText;
  }

  /** A value that is present canonicalises like an absent one exactly when its text is
      the null token itself. */
  lemma PresentReadsAbsentIff(kind: FieldKind, raw: Option<string>, nulls: set<string>)
    requires !IsNull(raw, nulls)
    ensures CanonicalValue(kind, raw, nulls) == CanonicalValue(kind, None, nulls) <==> Strip(raw.value) == NULL_TOKEN
  {
    var text := Strip(raw.value);
    NullTokenIsNoNumber();
    if kind == NUMERIC || kind == UNTYPED {
      NumericValue(kind, raw, nulls);
      hide *;
      if IsNumber(text) && CanonicalValue(kind, raw, nulls).Value? {
        var z := RenderedReadsBack(ReadRaw(text).value);
      }
    }
  }

  /** In a numeric or untyped field, two present values fingerprint alike exactly when
      both are the same number once rounded, or neither is a number and their texts are
      equal. */
  lemma NumericAlikeIff(kind: FieldKind, x: Option<string>, y: Option<string>, nulls: set<string>)
    requires kind == NUMERIC || kind == UNTYPED
    requires !IsNull(x, nulls) && !IsNull(y, nulls)
    requires CanonicalValue(kind, x, nulls).Value? && CanonicalValue(kind, y, nulls).Value?
    ensures var s, t := Strip(x.value), Strip(y.value);
            CanonicalValue(kind, x, nulls) == CanonicalValue(kind, y, nulls) <==>
            if IsNumber(s) && IsNumber(t) then SameNumber(Rounded(ReadRaw(s).value), Rounded(ReadRaw(t).value))
            else !IsNumber(s) && !IsNumber(t) && s == t
  {
    hide Strip, Render, ReadRaw, CaseFold, CanonicalValue, SameNumber, Rounded;
    var s, t := Strip(x.value), Strip(y.value);
    NumericValue(kind, x, nulls);
    NumericValue(kind, y, nulls);
    if IsNumber(s) {
      var z := RenderedReadsBack(ReadRaw(s).value);
    }
    if IsNumber(t) {
      var z := RenderedReadsBack(ReadRaw(t).value);
    }
    if IsNumber(s) && IsNumber(t) {
      SameTextIffSameRounded(ReadRaw(s).value, ReadRaw(t).value);
    }
  }

  // ----- canonical values are left alone

  lemma FoldedWords()
    ensures CaseFold("TRUE") == "true" && CaseFold("FALSE") == "false"
    ensures Strip("TRUE") == "TRUE" && Strip("FALSE") == "FALSE"
  {
    assert CaseFold("TRUE") == ['t', 'r', 'u', 'e'];
    assert CaseFold("FALSE") == ['f', 'a', 'l', 's', 'e'];
    StripTrimmed("TRUE");
    StripTrimmed("FALSE");
  }

  lemma BooleanKept(text: string)
    ensures CanonicalBoolean(CanonicalBoolean(text)) == CanonicalBoolean(text)
    ensures Strip(text) == text ==> Strip(CanonicalBoolean(text)) == CanonicalBoolean(text)
  {
    FoldedWords();
    hide CaseFold, Strip;
  }

  lemma RenderKept(d: Decimal)
    requires Render(d).Rendered?
    ensures var t := Render(d).text;
            Strip(t) == t && IsNumber(t) && Render(ReadRaw(t).value) == Render(d)
  {
    hide Render, ReadRaw, Strip, SameNumber, Rounded, NatText;
    var z := RenderedReadsBack(d);
    RenderedTrimmed(d);
    RoundedWithin(z);
    ZeroIsZero(z, Rounded(d));
    if d.coefficient == 0 {
      RenderZero(d);
      RenderZero(z);
    } else {
      RoundedPositive(d);
      SameIffNormal(z, Rounded(d));
      RenderOfNormal(d, z);
    }
  }

  lemma RenderedTrimmed(d: Decimal)
    requires Render(d).Rendered?
    ensures Strip(Render(d).text) == Render(d).text
  {
    hide Layout, Normal, Rounded, NatText, Strip, ReadRaw;
    if d.coefficient == 0 {
      PlainReadsAsIs("0");
    } else {
      RoundedPositive(d);
      LayoutPlain(Normal(Rounded(d)));
      PlainReadsAsIs(Layout(Normal(Rounded(d))));
    }
  }

  lemma NumericKept(kind: FieldKind, raw: Option<string>, nulls: set<string>, t: string)
    requires kind == NUMERIC || kind == UNTYPED
    requires !IsNull(raw, nulls) && !IsNull(Some(t), nulls)
    requires CanonicalValue(kind, raw, nulls) == Value(t)
    ensures CanonicalValue(kind, Some(t), nulls) == Value(t)
  {
    hide Strip, Render, ReadRaw, CaseFold, CanonicalValue;
    NumericValue(kind, raw, nulls);
    NumericValue(kind, Some(t), nulls);
    StripTwice(raw.value);
    if IsNumber(Strip(raw.value)) {
      RenderKept(ReadRaw(Strip(raw.value)).value);
      RenderIsNumeric(ReadRaw(t));
    }
  }

  lemma NullKept(kind: FieldKind, nulls: set<string>)
    requires !IsNull(Some(NULL_TOKEN), nulls)
    ensures CanonicalValue(kind, Some(NULL_TOKEN), nulls) == Value(NULL_TOKEN)
  {
    NullTokenIsNoNumber();
    assert NULL_TOKEN[0] == '\U{0}';
    assert CaseFold(NULL_TOKEN)[0] == '\U{0}';
    hide Strip, CaseFold;
    if kind == NUMERIC || kind == UNTYPED {
      NumericValue(kind, Some(NULL_TOKEN), nulls);
    }
  }

  lemma ValueKept(kind: FieldKind, raw: Option<string>, nulls: set<string>, t: string)
    requires CanonicalValue(kind, raw, nulls) == Value(t)
    requires !IsNull(Some(t), nulls)
    ensures CanonicalValue(kind, Some(t), nulls) == Value(t)
  {
    if IsNull(raw, nulls) {
      NullKept(kind, nulls);
    } else if kind == NUMERIC || kind == UNTYPED {
      NumericKept(kind, raw, nulls, t);
    } else {
      StripTwice(raw.value);
      BooleanKept(Strip(raw.value));
      hide Strip, CanonicalBoolean;
    }
  }

  /** Canonicalising a canonical value again keeps it exactly when its text is not a
      configured spelling of absence, or it already stood for absence. */
  lemma CanonicalValueKeptIff(kind: FieldKind, raw: Option<string>, nulls: set<string>, t: string)
    requires CanonicalValue(kind, raw, nulls) == Value(t)
    ensures CanonicalValue(kind, Some(t), nulls) == Value(t) <==> t == NULL_TOKEN || !IsNull(Some(t), nulls)
  {
    NullTokenIsNoNumber();
    if !IsNull(Some(t), nulls) {
      ValueKept(kind, raw, nulls, t);
    } else {
      hide Strip, CaseFold;
    }
  }

  // ----- the texts a field can have

  /** Some raw value of the field canonicalises to this text. */
  ghost predicate CanHold(kind: FieldKind, nulls: set<string>, text: string) {
    exists raw :: CanonicalValue(kind, raw, nulls) == Value(text)
  }

  predicate Framed(text: string) {
    text != "" && Trimmed(text)
  }

  lemma StripFramed(s: string)
    ensures Strip(s) != "" ==> Framed(Strip(s))
  {
    StripTrims(s);
  }

  /** It is never empty, and neither starts nor ends with white space. */
  lemma HeldIsFramed(kind: FieldKind, nulls: set<string>, text: string)
    requires CanHold(kind, nulls, text)
    ensures Framed(text)
  {
    hide Render, ReadRaw, CaseFold, IsSpace, Strip;
    var raw :| CanonicalValue(kind, raw, nulls) == Value(text);
    if IsNull(raw, nulls) {
      NullTokenFramed();
    } else {
      StripFramed(raw.value);
      var trimmed := Strip(raw.value);
      if kind == NUMERIC || kind == UNTYPED {
        NumericValue(kind, raw, nulls);
        if IsNumber(trimmed) {
          RenderedFramed(ReadRaw(trimmed).value);
        }
      } else {
        assert Framed("TRUE") && Framed("FALSE") by {
          WordsFramed();
        }
      }
    }
  }

  lemma NullTokenFramed()
    ensures Framed(NULL_TOKEN)
  {
  }

  lemma WordsFramed()
    ensures Framed("TRUE") && Framed("FALSE")
  {
  }

  lemma RenderedFramed(d: Decimal)
    requires Render(d).Rendered?
    ensures Framed(Render(d).text)
  {
    hide Render, Strip;
    RenderedTrimmed(d);
    StripFramed(Render(d).text);
    RenderKept(d);
    EmptyIsNoNumber();
  }

  lemma EmptyIsNoNumber()
    ensures !IsNumber("")
  {
  }

  /** A character that no numeral and no folded word holds. */
  predicate Foreign(c: char) {
    !IsDigit(c) && c != '.' && c != '_' && !IsSign(c) && !HeaderNames.IsUpper(c) && !HeaderNames.IsLower(c)
  }

  lemma AfterDigits(s: string, c: char)
    requires Foreign(c) && c in s
    ensures c in s[DigitRun(s)..]
  {
    hide DigitRun;
    var i :| 0 <= i < |s| && s[i] == c;
    assert i < DigitRun(s) ==> s[..DigitRun(s)][i] == c;
    assert s[DigitRun(s)..][i - DigitRun(s)] == c;
  }

  lemma ForeignSplit(s: string, c: char)
    requires Foreign(c) && c in s
    ensures c in Split(s).tail
  {
    hide DigitRun;
    AfterDigits(s, c);
    var i := DigitRun(s);
    if i < |s| && s[i] == '.' {
      var rest := s[i + 1..];
      assert s[i..] == [s[i]] + rest;
      AfterDigits(rest, c);
    }
  }

  lemma ForeignExponent(s: string, c: char)
    requires Foreign(c) && c in s
    ensures ReadExponent(s).None?
  {
    if s[0] == 'e' || s[0] == 'E' {
      assert s == [s[0]] + s[1..];
      assert c in s[1..];
      if |s| > 1 && IsSign(s[1]) {
        assert s[1..] == [s[1]] + s[2..];
        assert c in s[2..];
      }
    }
  }

  lemma ForeignIsNoNumber(text: string, c: char)
    requires Foreign(c) && c in Strip(text)
    ensures !IsNumber(text)
  {
    hide Split, ReadExponent, Strip;
    var s := RemoveUnderscores(Strip(text));
    RemoveKeepsOthers(Strip(text), c);
    ForeignUnsigned(s, c, false);
    if s != [] && IsSign(s[0]) {
      assert s == [s[0]] + s[1..];
      ForeignUnsigned(s[1..], c, s[0] == '-');
    }
  }

  lemma ForeignUnsigned(s: string, c: char, negative: bool)
    requires Foreign(c) && c in s
    ensures ReadUnsigned(s, negative).None?
  {
    hide Split, ReadExponent;
    ForeignSplit(s, c);
    ForeignExponent(Split(s).tail, c);
  }

  lemma FoldKeepsForeign(text: string, c: char)
    requires Foreign(c) && c in text
    ensures c in CaseFold(text)
  {
    var i :| 0 <= i < |text| && text[i] == c;
    assert CaseFold(text)[i] == c;
  }

  /** A framed text holding such a character is the canonical text of itself in a field
      of any kind, as long as no configured spelling of absence holds it. */
  lemma ForeignIsHeld(kind: FieldKind, nulls: set<string>, text: string, c: char)
    requires Foreign(c) && c in text && Framed(text)
    requires forall spelling :: spelling in nulls ==> c !in spelling
    ensures CanHold(kind, nulls, text)
  {
    StripTrimmed(text);
    FoldKeepsForeign(text, c);
    ForeignIsNoNumber(text, c);
    hide Strip, CaseFold;
    assert !IsNull(Some(text), nulls);
    if kind == NUMERIC || kind == UNTYPED {
      NumericValue(kind, Some(text), nulls);
    } else {
      ForeignIsNoWord(text, c);
    }
    assert CanonicalValue(kind, Some(text), nulls) == Value(text);
  }

  lemma ForeignIsNoWord(text: string, c: char)
    requires Foreign(c) && c in CaseFold(text)
    ensures CanonicalBoolean(text) == text
  {
    hide CaseFold;
    var folded := CaseFold(text);
    forall word | word in {"1", "true", "t", "yes", "y", "on", "0", "false", "f", "no", "n", "off"}
      ensures c !in word
    {
    }
  }
}
