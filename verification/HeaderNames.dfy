/** The mechanical snake_case name of one raw header. */
module HeaderNames {
  import opened Text

  const BOM := '\U{FEFF}'

  predicate IsLower(c: char) {
    'a' <= c <= 'z'
  }

  predicate IsUpper(c: char) {
    'A' <= c <= 'Z'
  }

  predicate IsAlnum(c: char) {
    IsDigit(c) || IsLower(c) || IsUpper(c)
  }

  function StripBom(s: string): string {
    if s != [] && s[0] == BOM then StripBom(s[1..]) else s
  }

  /** An underscore at each boundary from a lower-case letter or digit to a capital. */
  function CamelSplit(s: string): string {
    if s == [] then []
    else
      var n := |s| - 1;
      var boundary := n > 0 && (IsLower(s[n - 1]) || IsDigit(s[n - 1])) && IsUpper(s[n]);
      CamelSplit(s[..n]) + (if boundary then "_" else "") + [s[n]]
  }

  /** An underscore before the last capital of a run that a lower-case letter follows,
      in the first `n` characters of `s`. */
  function AcronymSplit(s: string, n: nat): string
    requires n <= |s|
  {
    if n == 0 then []
    else
      var boundary := 1 < n < |s| && IsUpper(s[n - 2]) && IsUpper(s[n - 1]) && IsLower(s[n]);
      AcronymSplit(s, n - 1) + (if boundary then "_" else "") + [s[n - 1]]
  }

  /** Each run of other characters becomes one underscore. */
  function Squash(s: string): string {
    if s == [] then []
    else
      var n := |s| - 1;
      Squash(s[..n])
      + if IsAlnum(s[n]) then [s[n]]
        else if n > 0 && !IsAlnum(s[n - 1]) then []
        else "_"
  }

  /** Each run of underscores becomes one. */
  function Collapse(s: string): string {
    if s == [] then []
    else
      var n := |s| - 1;
      Collapse(s[..n]) + if n > 0 && s[n] == '_' && s[n - 1] == '_' then [] else [s[n]]
  }

  function StripUnderscores(s: string): string {
    if s != [] && s[0] == '_' then StripUnderscores(s[1..])
    else if s != [] && s[|s| - 1] == '_' then StripUnderscores(s[..|s| - 1])
    else s
  }

  function LowerChar(c: char): char {
    if IsUpper(c) then 'a' + (c - 'A') else c
  }

  function Lower(s: string): (r: string)
    ensures |r| == |s|
    ensures forall i :: 0 <= i < |s| ==> r[i] == LowerChar(s[i])
  {
    if s == [] then [] else Lower(s[..|s| - 1]) + [LowerChar(s[|s| - 1])]
  }

  function Flatten(text: string): string {
    var camel := CamelSplit(text);
    Lower(StripUnderscores(Collapse(Squash(AcronymSplit(camel, |camel|)))))
  }

  function Unnamed(position: nat): string {
    "unnamed_field_" + NatText(position)
  }

  function Canonicalise(name: string, position: nat): string {
    var text := StripBom(Strip(name));
    if text == "" then Unnamed(position)
    else
      var snake := Flatten(text);
      if snake == "" then Unnamed(position)
      else if IsDigit(snake[0]) then "f_" + snake
      else snake
  }

  // ----- the shape of a canonical name

  predicate IsSnakeChar(c: char) {
    IsLower(c) || IsDigit(c) || c == '_'
  }

  ghost predicate NoDouble(s: string) {
    forall i :: 0 <= i < |s| - 1 ==> !(s[i] == '_' && s[i + 1] == '_')
  }

  /** Letters, digits and underscores, with no two underscores in a row. */
  ghost predicate Tidy(s: string) {
    && (forall i :: 0 <= i < |s| ==> IsAlnum(s[i]) || s[i] == '_')
    && NoDouble(s)
  }

  /** Lower-case words joined by single underscores. */
  ghost predicate Words(s: string) {
    && s != []
    && (forall i :: 0 <= i < |s| ==> IsSnakeChar(s[i]))
    && NoDouble(s)
    && s[0] != '_'
    && s[|s| - 1] != '_'
  }

  /** An identifier: words that do not begin with a digit. */
  ghost predicate Snake(s: string) {
    Words(s) && !IsDigit(s[0])
  }

  lemma {:induction false} SquashTidy(s: string)
    ensures Tidy(Squash(s))
    ensures Squash(s) != [] && Squash(s)[|Squash(s)| - 1] == '_' ==> s != [] && !IsAlnum(s[|s| - 1])
  {
    if s != [] {
      SquashTidy(s[..|s| - 1]);
    }
  }

  lemma {:induction false} CollapseKeeps(s: string)
    requires NoDouble(s)
    ensures Collapse(s) == s
  {
    if s != [] {
      var n := |s| - 1;
      CollapseKeeps(s[..n]);
      assert n > 0 ==> !(s[n - 1] == '_' && s[n - 1 + 1] == '_');
    }
  }

  lemma {:induction false} StripTidy(s: string)
    requires Tidy(s)
    ensures var t := StripUnderscores(s); Tidy(t) && (t == [] || (t[0] != '_' && t[|t| - 1] != '_'))
    decreases |s|
  {
    if s != [] && s[0] == '_' {
      StripTidy(s[1..]);
    } else if s != [] && s[|s| - 1] == '_' {
      StripTidy(s[..|s| - 1]);
    }
  }

  lemma LowerWords(t: string)
    requires Tidy(t) && t != [] && t[0] != '_' && t[|t| - 1] != '_'
    ensures Words(Lower(t))
  {
    var r := Lower(t);
    forall i | 0 <= i < |r|
      ensures IsSnakeChar(r[i]) && (r[i] == '_' <==> t[i] == '_')
    {
      assert IsAlnum(t[i]) || t[i] == '_';
    }
  }

  lemma FlattenWords(text: string)
    ensures Flatten(text) == [] || Words(Flatten(text))
  {
    hide Squash, AcronymSplit, CamelSplit, StripUnderscores, Collapse, Lower, Words, Tidy;
    var camel := CamelSplit(text);
    var split := AcronymSplit(camel, |camel|);
    SquashTidy(split);
    TidyHasNoDouble(Squash(split));
    CollapseKeeps(Squash(split));
    StripTidy(Squash(split));
    var t := StripUnderscores(Squash(split));
    if t != [] {
      LowerWords(t);
    }
  }

  lemma TidyHasNoDouble(s: string)
    ensures Tidy(s) ==> NoDouble(s)
  {
  }

  /** More words after an underscore. */
  lemma WordsJoin(a: string, b: string)
    requires Words(a) && Words(b)
    ensures Words(a + "_" + b)
    ensures Snake(a) ==> Snake(a + "_" + b)
  {
    var s := a + "_" + b;
    forall i | 0 <= i < |s| - 1
      ensures !(s[i] == '_' && s[i + 1] == '_')
    {
      if i < |a| - 1 {
        assert s[i] == a[i] && s[i + 1] == a[i + 1];
      } else if i == |a| - 1 {
        assert s[i] == a[i];
      } else if i == |a| {
        assert s[i + 1] == b[0];
      } else {
        var k := i - |a| - 1;
        assert s[i] == b[k] && s[i + 1] == b[k + 1];
      }
    }
    assert s[|s| - 1] == b[|b| - 1];
  }

  lemma DigitsAreWords(n: nat)
    ensures Words(NatText(n))
  {
    var s := NatText(n);
    assert AllDigits(s);
  }

  /** Whatever the raw header, its canonical name is an identifier. */
  lemma CanonicalIsSnake(name: string, position: nat)
    ensures Snake(Canonicalise(name, position))
  {
    hide Flatten, StripBom, Strip, NatText, Words;
    DigitsAreWords(position);
    var text := StripBom(Strip(name));
    FlattenWords(text);
    UnnamedIsSnake(position);
    if text != "" && Flatten(text) != "" && IsDigit(Flatten(text)[0]) {
      PrefixIsSnake(Flatten(text));
    }
  }

  lemma UnnamedIsSnake(position: nat)
    ensures Snake(Unnamed(position))
  {
    hide NatText;
    DigitsAreWords(position);
    WordsJoin("unnamed_field", NatText(position));
    assert "unnamed_field" + "_" + NatText(position) == Unnamed(position);
  }

  lemma PrefixIsSnake(s: string)
    requires Words(s)
    ensures Snake("f_" + s)
  {
    WordsJoin("f", s);
    assert "f" + "_" + s == "f_" + s;
  }

  // ----- identifiers are left alone

  lemma {:induction false} CamelKeeps(s: string)
    requires forall i :: 0 <= i < |s| ==> !IsUpper(s[i])
    ensures CamelSplit(s) == s
  {
    if s != [] {
      CamelKeeps(s[..|s| - 1]);
    }
  }

  lemma {:induction false} AcronymKeeps(s: string, n: nat)
    requires n <= |s|
    requires forall i :: 0 <= i < |s| ==> !IsUpper(s[i])
    ensures AcronymSplit(s, n) == s[..n]
  {
    if n > 0 {
      AcronymKeeps(s, n - 1);
    }
  }

  lemma {:induction false} SquashKeeps(s: string)
    requires Tidy(s)
    ensures Squash(s) == s
  {
    if s != [] {
      var n := |s| - 1;
      SquashKeeps(s[..n]);
      assert n > 0 ==> !(s[n - 1] == '_' && s[n - 1 + 1] == '_');
    }
  }

  lemma {:induction false} LowerKeeps(s: string)
    requires forall i :: 0 <= i < |s| ==> !IsUpper(s[i])
    ensures Lower(s) == s
  {
    if s != [] {
      LowerKeeps(s[..|s| - 1]);
    }
  }

  lemma FlattenKeeps(s: string)
    requires Words(s)
    ensures Flatten(s) == s
  {
    hide Squash, AcronymSplit, CamelSplit, Collapse, Lower;
    forall i | 0 <= i < |s|
      ensures !IsUpper(s[i]) && (IsAlnum(s[i]) || s[i] == '_')
    {
      assert IsSnakeChar(s[i]);
    }
    CamelKeeps(s);
    AcronymKeeps(s, |s|);
    assert s[..|s|] == s;
    SquashKeeps(s);
    CollapseKeeps(s);
    LowerKeeps(s);
  }

  /** The names that are their own canonical name are exactly the identifiers. */
  lemma CanonicalFixed(s: string, position: nat)
    ensures Canonicalise(s, position) == s <==> Snake(s)
  {
    hide Flatten, Strip, StripBom, Unnamed, Canonicalise;
    CanonicalIsSnake(s, position);
    if Snake(s) {
      SnakeUnchanged(s, position);
    }
  }

  lemma SnakeUnchanged(s: string, position: nat)
    requires Snake(s)
    ensures Canonicalise(s, position) == s
  {
    hide Flatten, Strip, Unnamed, Words;
    FlattenKeeps(s);
    SnakeIsTrimmed(s);
  }

  lemma SnakeIsTrimmed(s: string)
    requires Words(s)
    ensures Strip(s) == s && StripBom(s) == s && s != []
  {
    assert IsSnakeChar(s[0]) && IsSnakeChar(s[|s| - 1]);
    StripTrimmed(s);
  }

  /** Canonicalising twice changes nothing, at any position. */
  lemma CanonicalIdempotent(name: string, position: nat, other: nat)
    ensures Canonicalise(Canonicalise(name, position), other) == Canonicalise(name, position)
  {
    hide Canonicalise, Snake;
    CanonicalIsSnake(name, position);
    CanonicalFixed(Canonicalise(name, position), other);
  }
}
