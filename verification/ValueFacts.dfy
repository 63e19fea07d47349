/** What one value, and one row of values, is made into: which texts mean true and false,
    which are numbers and of what value, how they are rounded, and how a row is put
    together. */
module ValueFacts {
  import opened Text
  import opened FrameModels
  import opened Rounding
  import opened Numerals
  import opened FieldValues
  import opened CanonicalSerializer

  // ----- words

  /** The text is this lower-case word in any mix of capitals. */
  ghost predicate Spells(text: string, word: string) {
    && |text| == |word|
    && forall i :: 0 <= i < |text| ==>
         if 'A' <= text[i] <= 'Z' then text[i] as int + 32 == word[i] as int else text[i] == word[i]
  }

  lemma FoldRead(text: string, word: string)
    ensures CaseFold(text) == word <==> Spells(text, word)
  {
    var folded := CaseFold(text);
    if Spells(text, word) {
      assert forall i :: 0 <= i < |text| ==> folded[i] == word[i];
    }
  }

  /** One of these words says yes, one of those no, and other texts are kept. */
  lemma BooleanRead(text: string)
    ensures var said := CanonicalBoolean(text);
            var yes, no := {"1", "true", "t", "yes", "y", "on"}, {"0", "false", "f", "no", "n", "off"};
            && (forall word :: word in yes && Spells(text, word) ==> said == "TRUE")
            && (forall word :: word in no && Spells(text, word) ==> said == "FALSE")
            && ((forall word :: word in yes + no ==> !Spells(text, word)) ==> said == text)
  {
    hide CaseFold, Spells;
    forall word
      ensures CaseFold(text) == word <==> Spells(text, word)
    {
      FoldRead(text, word);
    }
    assert Spells(text, CaseFold(text));
  }

  /** Absent, blank, or a configured spelling of absence in any mix of capitals. */
  ghost predicate SaysNothing(raw: Option<string>, nulls: set<string>) {
    raw.None? || Strip(raw.value) == "" || exists spelling :: spelling in nulls && Spells(Strip(raw.value), spelling)
  }

  /** What a field of each kind makes of a value. */
  lemma ValueRead(kind: FieldKind, raw: Option<string>, nulls: set<string>)
    ensures var value := CanonicalValue(kind, raw, nulls);
            if SaysNothing(raw, nulls) then value == Value("\U{0}NULL")
            else
              var text := Strip(raw.value);
              && (kind == TEXTUAL ==> value == Value(text))
              && (kind == BOOLEAN ==> value == Value(CanonicalBoolean(text)))
              && (kind == NUMERIC || kind == UNTYPED ==>
                    && (ReadRaw(text) == None ==> value == Value(text))
                    && (ReadRaw(text) != None ==>
                          match Render(ReadRaw(text).value)
                          case Rendered(number) => value == Value(number)
                          case _ => value == Failed))
  {
    hide Strip, CaseFold, Render, ReadRaw, CanonicalBoolean, Spells;
    if raw.Some? {
      forall spelling
        ensures CaseFold(Strip(raw.value)) == spelling <==> Spells(Strip(raw.value), spelling)
      {
        FoldRead(Strip(raw.value), spelling);
      }
    }
    if !IsNull(raw, nulls) && (kind == NUMERIC || kind == UNTYPED) {
      NumericValue(kind, raw, nulls);
      RenderIsNumeric(ReadRaw(Strip(raw.value)));
    }
  }

  /** A field without a declared kind is read as a number wherever its text is one. */
  lemma UndeclaredRead(ser: Serializer, name: string, raw: Option<string>)
    requires name !in ser.kinds
    ensures ser.ValueOf(name, raw) == CanonicalValue(NUMERIC, raw, ser.nulls)
  {
    hide Strip, CaseFold, Render, ReadRaw;
  }

  // ----- numbers

  /** Rounding keeps 28 digits: the number is off by half a unit of the last at most, and
      the even neighbour wins a tie. */
  lemma RoundedRead(d: Decimal)
    ensures var r, drop := Rounded(d), |NatText(d.coefficient)| - 28;
            && r.negative == d.negative
            && (drop <= 0 ==> r == d)
            && (drop > 0 ==>
                  && r.exponent == d.exponent + drop
                  && var unit: int := Pow10(drop);
                     var error := 2 * d.coefficient - 2 * (r.coefficient * unit);
                     -unit <= error <= unit && (error == unit || error == -unit ==> r.coefficient % 2 == 0))
  {
    hide NatText, Pow10, HalfEven;
    var drop := |NatText(d.coefficient)| - 28;
    if drop > 0 {
      HalfEvenNear(d.coefficient, Pow10(drop));
      HalfEvenTies(d.coefficient, Pow10(drop));
    }
  }

  /** A decimal literal: digits with or without a point, at least one of them, and an
      exponent if there is one. */
  datatype Literal = Literal(
    sign: string, whole: string, point: bool, fraction: string, mark: string, expSign: string, power: string)
  {
    function Text(): string {
      sign + whole + (if point then "." + fraction else "") + mark + expSign + power
    }

    predicate Proper() {
      && sign in {"", "+", "-"} && expSign in {"", "+", "-"} && mark in {"", "e", "E"}
      && AllDigits(whole) && AllDigits(fraction) && AllDigits(power)
      && whole + fraction != "" && (!point ==> fraction == "")
      && if mark == "" then expSign == power == "" else power != ""
    }

    function Number(): Decimal
      requires Proper()
    {
      var exponent: int := NatValue(power);
      Decimal(sign == "-", NatValue(whole + fraction),
              (if expSign == "-" then -exponent else exponent) - |fraction|)
    }
  }

  lemma SplitRead(whole: string, fraction: string, point: bool, tail: string)
    requires AllDigits(whole) && AllDigits(fraction) && (!point ==> fraction == "")
    requires tail == "" || (!IsDigit(tail[0]) && tail[0] != '.')
    ensures Split(whole + (if point then "." + fraction else "") + tail) == Parts(whole, fraction, tail)
  {
    hide DigitRun;
    var s := whole + (if point then "." + fraction else "") + tail;
    if point {
      var rest := fraction + tail;
      assert s == whole + ("." + rest);
      DigitRunIs(whole, "." + rest);
      assert s[..|whole|] == whole && s[|whole|] == '.' && s[|whole| + 1..] == rest;
      DigitRunIs(fraction, tail);
      assert rest[..|fraction|] == fraction && rest[|fraction|..] == tail;
    } else {
      assert s == whole + tail;
      DigitRunIs(whole, tail);
      assert s[..|whole|] == whole && s[|whole|..] == tail;
    }
  }

  lemma ExponentRead(l: Literal)
    requires l.Proper()
    ensures ReadExponent(l.mark + l.expSign + l.power)
            == Some(if l.expSign == "-" then -(NatValue(l.power) as int) else NatValue(l.power) as int)
  {
    var s := l.mark + l.expSign + l.power;
    if l.mark != "" {
      assert l.expSign == "" ==> s[1..] == l.power && !IsSign(l.power[0]);
      assert l.expSign != "" ==> s[2..] == l.power && s[1] == l.expSign[0];
      assert s[0] == l.mark[0];
    }
  }

  lemma UnsignedRead(l: Literal)
    requires l.Proper()
    ensures var rest := l.whole + (if l.point then "." + l.fraction else "") + (l.mark + l.expSign + l.power);
            ReadUnsigned(rest, l.sign == "-") == Some(l.Number())
  {
    hide Split, ReadExponent;
    var tail := l.mark + l.expSign + l.power;
    assert tail != "" ==> tail[0] == 'e' || tail[0] == 'E';
    SplitRead(l.whole, l.fraction, l.point, tail);
    ExponentRead(l);
  }

  /** Every literal reads as its number. */
  lemma LiteralReads(l: Literal)
    requires l.Proper()
    ensures Read(l.Text()) == Some(l.Number())
  {
    hide ReadUnsigned, NatValue, Literal.Number, Literal.Text, Literal.Proper, IsSign;
    var tail := l.mark + l.expSign + l.power;
    var rest := l.whole + (if l.point then "." + l.fraction else "") + tail;
    UnsignedRead(l);
    TextOf(l, tail);
    SignsAre(l);
    UnsignedStart(l.whole, if l.point then "." + l.fraction else "", tail);
    if l.sign == "" {
      assert "" + rest == rest;
    } else {
      assert l.Text()[1..] == rest;
    }
  }

  lemma SignsAre(l: Literal)
    requires l.Proper()
    ensures l.sign == "" || (|l.sign| == 1 && IsSign(l.sign[0]) && (l.sign == "-" <==> l.sign[0] == '-'))
    ensures AllDigits(l.whole)
    ensures l.whole == "" ==> l.point
  {
  }

  lemma UnsignedStart(whole: string, fraction: string, tail: string)
    requires AllDigits(whole) && (whole == "" ==> fraction != "" && fraction[0] == '.')
    ensures whole + fraction + tail != "" && !IsSign((whole + fraction + tail)[0])
  {
    assert whole != "" ==> (whole + fraction + tail)[0] == whole[0] && IsDigit(whole[0]);
  }

  /** And nothing else reads as one. */
  lemma ReadsLiteral(s: string) returns (l: Literal)
    requires Read(s).Some?
    ensures l.Proper() && l.Text() == s && Read(s) == Some(l.Number())
  {
    hide ReadExponent, NatValue, Split, Literal.Number;
    var signed := s != "" && IsSign(s[0]);
    var rest := if signed then s[1..] else s;
    var point := SplitParts(rest);
    var p := Split(rest);
    var mark, expSign, power := ExponentParts(p.tail);
    l := Literal(if signed then [s[0]] else "", p.whole, point, p.fraction, mark, expSign, power);
    TextOf(l, p.tail);
    assert s == l.sign + rest;
    LiteralReads(l);
  }

  lemma TextOf(l: Literal, tail: string)
    requires tail == l.mark + l.expSign + l.power
    ensures l.Text() == l.sign + (l.whole + (if l.point then "." + l.fraction else "") + tail)
  {
  }

  lemma SplitParts(s: string) returns (point: bool)
    ensures var p := Split(s);
            s == p.whole + (if point then "." + p.fraction else "") + p.tail && (!point ==> p.fraction == "")
  {
    hide DigitRun;
    var i := DigitRun(s);
    point := i < |s| && s[i] == '.';
    if point {
      assert s == s[..i] + "." + s[i + 1..];
    }
  }

  lemma ExponentParts(tail: string) returns (mark: string, expSign: string, power: string)
    requires ReadExponent(tail).Some?
    ensures tail == mark + expSign + power && AllDigits(power)
    ensures mark in {"", "e", "E"} && expSign in {"", "+", "-"}
    ensures if mark == "" then expSign == power == "" else power != ""
  {
    mark, expSign, power := "", "", "";
    if tail != "" {
      mark := [tail[0]];
      if |tail| > 1 && IsSign(tail[1]) {
        expSign, power := [tail[1]], tail[2..];
      } else {
        power := tail[1..];
      }
    }
  }

  /** Before a literal is read, white space around it and underscores go. */
  lemma {:induction false} UnderscoresRemoved(a: string, b: string)
    ensures RemoveUnderscores("_") == "" && forall c :: c != '_' ==> RemoveUnderscores([c]) == [c]
    ensures RemoveUnderscores(a + b) == RemoveUnderscores(a) + RemoveUnderscores(b)
  {
    hide RemoveUnderscores;
    RemoveOne();
    if b == "" {
      assert a + b == a;
      RemoveFromNone();
    } else {
      var init, last := b[..|b| - 1], b[|b| - 1];
      UnderscoresRemoved(a, init);
      assert b == init + [last] && a + b == (a + init) + [last];
      RemovePush(a + init, last);
      RemovePush(init, last);
    }
  }

  lemma RemoveFromNone()
    ensures RemoveUnderscores("") == ""
  {
  }

  lemma RemoveOne()
    ensures RemoveUnderscores("_") == "" && forall c :: c != '_' ==> RemoveUnderscores([c]) == [c]
  {
    RemovePush("", '_');
    assert "" + "_" == "_";
    forall c: char | c != '_'
      ensures RemoveUnderscores([c]) == [c]
    {
      RemovePush("", c);
      assert "" + [c] == [c];
    }
  }

  lemma RemovePush(s: string, c: char)
    ensures RemoveUnderscores(s + [c]) == RemoveUnderscores(s) + if c == '_' then "" else [c]
  {
    assert (s + [c])[..|s|] == s;
  }

  // ----- rows

  /** Joining puts the separator between texts. */
  lemma {:induction false} JoinRead(sep: char, a: seq<string>, b: seq<string>)
    requires a != [] && b != []
    ensures forall x :: Join(sep, [x]) == x
    ensures Join(sep, a + b) == Join(sep, a) + [sep] + Join(sep, b)
  {
    assert (a + b)[0] == a[0];
    if |a| == 1 {
      assert (a + b)[1..] == b;
    } else {
      assert (a + b)[1..] == a[1..] + b;
      JoinRead(sep, a[1..], b);
    }
  }

  /** The parts of a row are its fields that are not left out, in order, each name with its
      value; `at` names the fields. */
  ghost predicate PartsRead(
      names: seq<string>, values: seq<string>, excluded: set<string>, parts: seq<string>, at: seq<nat>)
  {
    && |at| == |parts|
    && (forall k :: 0 <= k < |at| ==>
          at[k] < |names| && at[k] < |values| && parts[k] == names[at[k]] + "=" + values[at[k]])
    && (forall j, k :: 0 <= j < k < |at| ==> at[j] < at[k])
    && forall i: nat :: i in at <==> i < |names| && i < |values| && names[i] !in excluded
  }

  lemma {:induction false} RowPartsRead(names: seq<string>, values: seq<string>, excluded: set<string>, n: nat)
    returns (at: seq<nat>)
    requires n <= |names| && n <= |values|
    ensures PartsRead(names[..n], values[..n], excluded, RowParts(names[..n], values[..n], excluded), at)
  {
    if n == 0 {
      at := [];
    } else {
      var before := RowPartsRead(names, values, excluded, n - 1);
      at := before + if names[n - 1] in excluded then [] else [n - 1];
      PartsPush(names, values, excluded, n - 1);
      PartsReadPush(names, values, excluded, n - 1, RowParts(names[..n - 1], values[..n - 1], excluded), before);
    }
  }

  lemma PartsReadPush(
      names: seq<string>, values: seq<string>, excluded: set<string>, n: nat, parts: seq<string>, at: seq<nat>)
    requires n < |names| && n < |values|
    requires PartsRead(names[..n], values[..n], excluded, parts, at)
    ensures PartsRead(
              names[..n + 1], values[..n + 1], excluded,
              parts + (if names[n] in excluded then [] else [names[n] + "=" + values[n]]),
              at + if names[n] in excluded then [] else [n])
  {
    var more := at + if names[n] in excluded then [] else [n];
    assert forall k :: 0 <= k < |at| ==> at[k] < n;
    forall i: nat
      ensures i in more <==> i < n + 1 && names[i] !in excluded
    {
      assert i in at <==> i < n && names[..n][i] !in excluded;
    }
  }

  /** What stands between two fields of a row, and between two positions of a frame. */
  lemma TextsSpelled(x: string, y: string, frame: map<string, Digest>)
    ensures Join(VALUE_SEP, [x, y]) == x + "\U{1F}" + y
    ensures x != y && TextLe(x, y) && frame.Keys == {x, y} ==>
              FrameFingerprint(frame) == x + "=" + frame[x] + "\U{1E}" + (y + "=" + frame[y])
  {
    hide FrameFingerprint, TextLe, Join;
    JoinRead(VALUE_SEP, [x], [y]);
    assert [x] + [y] == [x, y];
    if x != y && TextLe(x, y) && frame.Keys == {x, y} {
      TextOfTwo(x, y, frame);
    }
  }
}
