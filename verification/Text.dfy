/** Text as sequences of code points: decimal numerals, joining with a separator,
    dictionary order, and the suffix counters used to make names unique. */
module Text {
  import opened Sorting

  // ----- decimal numerals

  predicate IsDigit(c: char) {
    '0' <= c <= '9'
  }

  predicate AllDigits(s: string) {
    forall i :: 0 <= i < |s| ==> IsDigit(s[i])
  }

  function DigitChar(d: nat): (c: char)
    requires d < 10
    ensures IsDigit(c) && DigitValue(c) == d
  {
    '0' + d as char
  }

  function DigitValue(c: char): (d: nat)
    requires IsDigit(c)
    ensures d < 10
  {
    (c - '0') as int
  }

  /** `str(n)` for a natural number. */
  function NatText(n: nat): (s: string)
    ensures |s| > 0 && AllDigits(s)
  {
    if n < 10 then [DigitChar(n)] else NatText(n / 10) + [DigitChar(n % 10)]
  }

  /** `int(s)` for a run of digits. */
  function NatValue(s: string): nat
    requires AllDigits(s)
  {
    if s == [] then 0 else 10 * NatValue(s[..|s| - 1]) + DigitValue(s[|s| - 1])
  }

  lemma {:induction false} NatTextReadsBack(n: nat)
    ensures NatValue(NatText(n)) == n
  {
    var s := NatText(n);
    if n < 10 {
      assert s[..|s| - 1] == [];
    } else {
      NatTextReadsBack(n / 10);
      assert s[..|s| - 1] == NatText(n / 10);
    }
  }

  // ----- white space

  predicate IsSpace(c: char) {
    c == ' ' || '\t' <= c <= '\r' || '\U{1C}' <= c <= '\U{1F}' || c == '\U{85}' || c == '\U{A0}'
  }

  function StripLeft(s: string): string {
    if s != [] && IsSpace(s[0]) then StripLeft(s[1..]) else s
  }

  function StripRight(s: string): string {
    if s != [] && IsSpace(s[|s| - 1]) then StripRight(s[..|s| - 1]) else s
  }

  function Strip(s: string): string {
    StripRight(StripLeft(s))
  }

  predicate EndsClean(s: string) {
    s == "" || !IsSpace(s[|s| - 1])
  }

  /** Neither starts nor ends with white space. */
  predicate Trimmed(s: string) {
    EndsClean(s) && (s == "" || !IsSpace(s[0]))
  }

  lemma {:induction false} StripLeftTrims(s: string)
    ensures var t := StripLeft(s); |t| <= |s| && t == s[|s| - |t|..] && (t == [] || !IsSpace(t[0]))
  {
    if s != [] && IsSpace(s[0]) {
      StripLeftTrims(s[1..]);
    }
  }

  lemma {:induction false} StripRightTrims(s: string)
    ensures var t := StripRight(s); |t| <= |s| && t == s[..|t|] && (t == [] || !IsSpace(t[|t| - 1]))
  {
    if s != [] && IsSpace(s[|s| - 1]) {
      StripRightTrims(s[..|s| - 1]);
    }
  }

  lemma StripTrims(s: string)
    ensures Trimmed(Strip(s))
  {
    StripLeftTrims(s);
    StripRightTrims(StripLeft(s));
  }

  lemma StripTrimmed(t: string)
    requires Trimmed(t)
    ensures Strip(t) == t
  {
  }

  // ----- joining with a separator

  function Join(sep: char, parts: seq<string>): string {
    if |parts| == 0 then ""
    else if |parts| == 1 then parts[0]
    else parts[0] + [sep] + Join(sep, parts[1..])
  }

  ghost predicate FreeOf(sep: char, parts: seq<string>) {
    forall i :: 0 <= i < |parts| ==> sep !in parts[i]
  }

  lemma SplitUnique(sep: char, a: string, x: string, b: string, y: string)
    requires sep !in a && sep !in b
    requires a + [sep] + x == b + [sep] + y
    ensures a == b && x == y
  {
    var s := a + [sep] + x;
    var t := b + [sep] + y;
    assert s[|a|] == sep && t[|b|] == sep;
    assert forall i :: 0 <= i < |a| ==> s[i] == a[i];
    assert forall i :: 0 <= i < |b| ==> t[i] == b[i];
    assert |a| == |b|;
    assert a == s[..|a|] && b == t[..|b|];
    assert x == s[|a| + 1..] && y == t[|b| + 1..];
  }

  lemma JoinHasSeparator(sep: char, parts: seq<string>)
    requires |parts| > 0 && FreeOf(sep, parts)
    ensures sep in Join(sep, parts) <==> |parts| > 1
  {
    if |parts| > 1 {
      assert Join(sep, parts)[|parts[0]|] == sep;
    }
  }

  /** A separator that occurs in no part makes joining unambiguous. */
  lemma {:induction false} JoinInjective(sep: char, a: seq<string>, b: seq<string>)
    requires |a| > 0 && |b| > 0
    requires FreeOf(sep, a) && FreeOf(sep, b)
    ensures Join(sep, a) == Join(sep, b) <==> a == b
  {
    JoinHasSeparator(sep, a);
    JoinHasSeparator(sep, b);
    if Join(sep, a) == Join(sep, b) {
      if |a| > 1 {
        SplitUnique(sep, a[0], Join(sep, a[1..]), b[0], Join(sep, b[1..]));
        JoinInjective(sep, a[1..], b[1..]);
        assert a == [a[0]] + a[1..];
        assert b == [b[0]] + b[1..];
      }
    }
  }

  // ----- dictionary order

  /** Python's `<=` on strings. */
  predicate TextLe(a: string, b: string) {
    if a == [] then true
    else if b == [] then false
    else a[0] < b[0] || (a[0] == b[0] && TextLe(a[1..], b[1..]))
  }

  lemma {:induction false} TextLeTotal(a: string, b: string)
    ensures TextLe(a, b) || TextLe(b, a)
    ensures TextLe(a, b) && TextLe(b, a) ==> a == b
  {
    if a != [] && b != [] {
      TextLeTotal(a[1..], b[1..]);
      assert a == [a[0]] + a[1..];
      assert b == [b[0]] + b[1..];
    }
  }

  lemma {:induction false} TextLeTransitive(a: string, b: string, c: string)
    requires TextLe(a, b) && TextLe(b, c)
    ensures TextLe(a, c)
  {
    if a != [] && a[0] == b[0] && b[0] == c[0] {
      TextLeTransitive(a[1..], b[1..], c[1..]);
    }
  }

  lemma TextLeIsTotalOrder()
    ensures TotalOrder(TextLe)
  {
    forall a, b
      ensures TextLe(a, b) || TextLe(b, a)
      ensures TextLe(a, b) && TextLe(b, a) ==> a == b
    {
      TextLeTotal(a, b);
    }
    forall a, b, c | TextLe(a, b) && TextLe(b, c)
      ensures TextLe(a, c)
    {
      TextLeTransitive(a, b, c);
    }
  }

  // ----- suffix counters

  /** The members of `used` that some counter value from `n` on would produce. */
  ghost function Reachable(used: set<string>, prefix: string, n: nat): set<string> {
    set x | x in used && exists k: nat :: n <= k && x == prefix + NatText(k)
  }

  lemma NumeralsDiffer(prefix: string, m: nat, n: nat)
    ensures prefix + NatText(m) == prefix + NatText(n) <==> m == n
  {
    NatTextReadsBack(m);
    NatTextReadsBack(n);
    var s, t := prefix + NatText(m), prefix + NatText(n);
    assert s[|prefix|..] == NatText(m) && t[|prefix|..] == NatText(n);
  }

  /** Stepping a counter over a name already in use leaves strictly fewer names
      ahead of it, so the search for a free name ends. */
  lemma CounterAdvances(used: set<string>, prefix: string, n: nat)
    ensures Reachable(used, prefix, n + 1) <= Reachable(used, prefix, n)
    ensures prefix + NatText(n) in used ==> Reachable(used, prefix, n + 1) < Reachable(used, prefix, n)
  {
    var x := prefix + NatText(n);
    if x in used {
      assert x in Reachable(used, prefix, n);
      forall k: nat | n + 1 <= k
        ensures x != prefix + NatText(k)
      {
        NumeralsDiffer(prefix, n, k);
      }
      assert x !in Reachable(used, prefix, n + 1);
    }
  }
}
