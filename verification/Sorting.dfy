/** Ordered sequences: Python's stable `sorted` over a sequence, and `sorted` over
    a set. Both take the "comes no later than" relation as a parameter. */
module Sorting {

  ghost predicate TotalPreorder<T(!new)>(le: (T, T) -> bool) {
    && (forall x, y :: le(x, y) || le(y, x))
    && (forall x, y, z :: le(x, y) && le(y, z) ==> le(x, z))
  }

  ghost predicate TotalOrder<T(!new)>(le: (T, T) -> bool) {
    && TotalPreorder(le)
    && (forall x, y :: le(x, y) && le(y, x) ==> x == y)
  }

  ghost predicate Ascending<T>(s: seq<T>, le: (T, T) -> bool) {
    forall i, j :: 0 <= i < j < |s| ==> le(s[i], s[j])
  }

  ghost predicate Distinct<T>(s: seq<T>) {
    forall i, j :: 0 <= i < j < |s| ==> s[i] != s[j]
  }

  // ----- stable sorting of a sequence

  function Insert<T>(s: seq<T>, x: T, le: (T, T) -> bool): (r: seq<T>)
    ensures multiset(r) == multiset(s) + multiset{x}
    ensures |r| == |s| + 1
  {
    if s == [] then
      [x]
    else
      assert s == s[..|s| - 1] + [s[|s| - 1]];
      if le(s[|s| - 1], x) then
        s + [x]
      else
        Insert(s[..|s| - 1], x, le) + [s[|s| - 1]]
  }

  /** Elements that compare equal keep their order of appearance. */
  function Sort<T>(s: seq<T>, le: (T, T) -> bool): (r: seq<T>)
    ensures multiset(r) == multiset(s)
    ensures |r| == |s|
  {
    if s == [] then
      []
    else
      assert s == s[..|s| - 1] + [s[|s| - 1]];
      Insert(Sort(s[..|s| - 1], le), s[|s| - 1], le)
  }

  lemma MembersFromMultiset<T>(r: seq<T>, s: seq<T>)
    requires multiset(r) == multiset(s)
    ensures forall x :: x in r <==> x in s
  {
    forall x
      ensures x in r <==> x in s
    {
      assert x in r <==> x in multiset(r);
      assert x in s <==> x in multiset(s);
    }
  }

  /** Two rearrangements stay so when one element is taken out of each. */
  lemma TakeOut<T>(x: seq<T>, y: seq<T>) returns (before: seq<T>, after: seq<T>)
    requires multiset(x) == multiset(y) && x != []
    ensures y == before + [x[|x| - 1]] + after
    ensures multiset(x[..|x| - 1]) == multiset(before + after)
  {
    var init, a := x[..|x| - 1], x[|x| - 1];
    MembersFromMultiset(x, y);
    assert x[|x| - 1] in x;
    var m :| 0 <= m < |y| && y[m] == a;
    before, after := y[..m], y[m + 1..];
    assert x == init + [a];
    assert y == before + [a] + after;
    calc {
      multiset(init) + multiset{a};
      multiset(x);
      multiset(y);
      multiset(before) + multiset{a} + multiset(after);
    }
    assert multiset(before + after) == multiset(before) + multiset(after);
    Cancel(multiset(init), multiset(before + after), a);
  }

  lemma Cancel<T>(p: multiset<T>, q: multiset<T>, a: T)
    requires p + multiset{a} == q + multiset{a}
    ensures p == q
  {
    assert p == (p + multiset{a}) - multiset{a};
    assert q == (q + multiset{a}) - multiset{a};
  }

  lemma {:induction false} InsertAscends<T(!new)>(s: seq<T>, x: T, le: (T, T) -> bool)
    requires TotalPreorder(le)
    requires Ascending(s, le)
    ensures Ascending(Insert(s, x, le), le)
  {
    if s != [] && !le(s[|s| - 1], x) {
      var rest := s[..|s| - 1];
      InsertAscends(rest, x, le);
      var t := Insert(rest, x, le);
      forall i | 0 <= i < |t|
        ensures le(t[i], s[|s| - 1])
      {
        assert t[i] in multiset(t);
        assert t[i] in multiset(rest) + multiset{x};
        assert t[i] == x || t[i] in rest;
      }
    }
  }

  lemma {:induction false} SortAscends<T(!new)>(s: seq<T>, le: (T, T) -> bool)
    requires TotalPreorder(le)
    ensures Ascending(Sort(s, le), le)
  {
    if s != [] {
      SortAscends(s[..|s| - 1], le);
      InsertAscends(Sort(s[..|s| - 1], le), s[|s| - 1], le);
    }
  }

  lemma {:induction false} SortOfAscending<T>(s: seq<T>, le: (T, T) -> bool)
    requires Ascending(s, le)
    ensures Sort(s, le) == s
  {
    if s != [] {
      var rest, last := s[..|s| - 1], s[|s| - 1];
      SortOfAscending(rest, le);
      assert s == rest + [last];
      assert rest == [] || le(rest[|rest| - 1], last);
      assert Insert(rest, last, le) == rest + [last];
    }
  }

  // ----- selection, and how stable sorting commutes with it

  function Select<T>(s: seq<T>, p: T -> bool): (r: seq<T>) {
    if s == [] then
      []
    else
      var rest := Select(s[..|s| - 1], p);
      if p(s[|s| - 1]) then rest + [s[|s| - 1]] else rest
  }

  lemma {:induction false} SelectMembers<T(!new)>(s: seq<T>, p: T -> bool)
    ensures |Select(s, p)| <= |s|
    ensures forall x :: x in Select(s, p) <==> x in s && p(x)
  {
    if s != [] {
      var init, last := s[..|s| - 1], s[|s| - 1];
      SelectMembers(init, p);
      assert s == init + [last];
    }
  }

  lemma SelectPush<T>(s: seq<T>, x: T, p: T -> bool)
    ensures Select(s + [x], p) == if p(x) then Select(s, p) + [x] else Select(s, p)
  {
    assert (s + [x])[..|s|] == s;
  }

  lemma {:induction false} SelectAppend<T(!new)>(s: seq<T>, t: seq<T>, p: T -> bool)
    ensures Select(s + t, p) == Select(s, p) + Select(t, p)
  {
    if t == [] {
      assert s + t == s;
    } else {
      var init := t[..|t| - 1];
      assert (s + t)[..|s + t| - 1] == s + init;
      SelectAppend(s, init, p);
    }
  }

  lemma {:induction false} SelectAscends<T(!new)>(s: seq<T>, p: T -> bool, le: (T, T) -> bool)
    requires Ascending(s, le)
    ensures Ascending(Select(s, p), le)
  {
    if s != [] {
      var rest := s[..|s| - 1];
      SelectAscends(rest, p, le);
      SelectMembers(rest, p);
      var r := Select(rest, p);
      forall i | 0 <= i < |r|
        ensures le(r[i], s[|s| - 1])
      {
        assert r[i] in rest;
      }
    }
  }

  lemma {:induction false} SelectDistinct<T(!new)>(s: seq<T>, p: T -> bool)
    requires Distinct(s)
    ensures Distinct(Select(s, p))
  {
    if s != [] {
      var rest, last := s[..|s| - 1], s[|s| - 1];
      SelectDistinct(rest, p);
      SelectMembers(rest, p);
      var sel := Select(rest, p);
      assert s == rest + [last];
      forall i | 0 <= i < |sel|
        ensures sel[i] != last
      {
        assert sel[i] in rest;
      }
    }
  }

  lemma {:induction false} SelectAll<T(!new)>(s: seq<T>, p: T -> bool)
    requires forall i :: 0 <= i < |s| ==> p(s[i])
    ensures Select(s, p) == s
  {
    if s != [] {
      SelectAll(s[..|s| - 1], p);
      assert s == s[..|s| - 1] + [s[|s| - 1]];
    }
  }

  lemma SelectOfNone<T>(p: T -> bool)
    ensures Select([], p) == []
  {
  }

  lemma SelectedBelow<T(!new)>(s: seq<T>, x: T, p: T -> bool, le: (T, T) -> bool)
    requires TotalPreorder(le)
    requires Ascending(s, le) && s != [] && le(s[|s| - 1], x)
    requires Select(s, p) != []
    ensures var sel := Select(s, p); le(sel[|sel| - 1], x)
  {
    hide Select;
    var sel := Select(s, p);
    SelectMembers(s, p);
    assert sel[|sel| - 1] in sel;
    var k :| 0 <= k < |s| && s[k] == sel[|sel| - 1];
    assert k == |s| - 1 || le(s[k], s[|s| - 1]);
  }

  lemma {:induction false} SelectInsert<T(!new)>(s: seq<T>, x: T, p: T -> bool, le: (T, T) -> bool)
    requires TotalPreorder(le)
    requires Ascending(s, le)
    ensures Select(Insert(s, x, le), p) == if p(x) then Insert(Select(s, p), x, le) else Select(s, p)
  {
    hide Select;
    SelectOfNone(p);
    if s == [] {
      SelectPush([], x, p);
      assert [] + [x] == [x];
    } else {
      var rest, last := s[..|s| - 1], s[|s| - 1];
      assert s == rest + [last];
      SelectPush(rest, last, p);
      if le(last, x) {
        SelectPush(s, x, p);
        if p(x) && Select(s, p) != [] {
          SelectedBelow(s, x, p, le);
        }
      } else {
        SelectInsert(rest, x, p, le);
        SelectPush(Insert(rest, x, le), last, p);
        if p(x) && p(last) {
          var sel := Select(s, p);
          assert sel[..|sel| - 1] == Select(rest, p);
        }
      }
    }
  }

  lemma {:induction false} SelectSort<T(!new)>(s: seq<T>, p: T -> bool, le: (T, T) -> bool)
    requires TotalPreorder(le)
    ensures Select(Sort(s, le), p) == Sort(Select(s, p), le)
  {
    if s != [] {
      var rest := s[..|s| - 1];
      var x := s[|s| - 1];
      SelectSort(rest, p, le);
      SortAscends(rest, le);
      SelectInsert(Sort(rest, le), x, p, le);
      if p(x) {
        var sel := Select(s, p);
        assert sel[..|sel| - 1] == Select(rest, p);
      }
    }
  }

  // ----- members of sequences and sets

  function Members<T(==)>(s: seq<T>): set<T> {
    set x | x in s
  }

  lemma Pick<T(!new)>(s: set<T>) returns (x: T)
    requires s != {}
    ensures x in s
  {
    x :| x in s;
  }

  lemma PickBeyond<T(!new)>(s: set<T>, t: set<T>) returns (x: T)
    requires s <= t && s != t
    ensures x in t && x !in s
  {
    x :| x in t && x !in s;
  }

  lemma PickDifference<T(!new)>(s: set<T>, t: set<T>) returns (x: T)
    requires s != t
    ensures x in s <==> x !in t
  {
    x :| x in s <==> x !in t;
  }

  // ----- sorting a set

  lemma {:induction false} Least<T(!new)>(s: set<T>, le: (T, T) -> bool) returns (m: T)
    requires TotalPreorder(le)
    requires s != {}
    ensures m in s && forall x :: x in s ==> le(m, x)
  {
    var a :| a in s;
    m := a;
    var rest := s - {a};
    if rest != {} {
      var b := Least(rest, le);
      m := if le(a, b) then a else b;
    }
    forall x | x in s
      ensures le(m, x)
    {
      assert x == a || x in rest;
    }
  }

  lemma LeastExists<T(!new)>(s: set<T>, le: (T, T) -> bool)
    requires TotalPreorder(le)
    requires s != {}
    ensures exists m :: m in s && forall x :: x in s ==> le(m, x)
  {
    var m := Least(s, le);
  }

  lemma LeastFirst<T(!new)>(s: set<T>, m: T, rest: seq<T>, le: (T, T) -> bool)
    requires m in s && forall x :: x in s ==> le(m, x)
    requires forall x :: x in rest <==> x in s - {m}
    requires Ascending(rest, le) && Distinct(rest) && |rest| == |s| - 1
    ensures forall x :: x in [m] + rest <==> x in s
    ensures Ascending([m] + rest, le) && Distinct([m] + rest) && |[m] + rest| == |s|
  {
    var r := [m] + rest;
    forall i, j | 0 <= i < j < |r|
      ensures le(r[i], r[j]) && r[i] != r[j]
    {
      assert r[j] == rest[j - 1];
      assert rest[j - 1] in rest;
    }
  }

  function SortedSet<T(!new)>(s: set<T>, le: (T, T) -> bool): (r: seq<T>)
    requires TotalOrder(le)
    ensures forall x :: x in r <==> x in s
    ensures Ascending(r, le)
    ensures Distinct(r)
    ensures |r| == |s|
  {
    if s == {} then
      []
    else
      LeastExists(s, le);
      var m :| m in s && forall x :: x in s ==> le(m, x);
      var rest := SortedSet(s - {m}, le);
      LeastFirst(s, m, rest, le);
      [m] + rest
  }

  lemma {:induction false} DistinctLength<T(!new)>(s: seq<T>)
    requires Distinct(s)
    ensures |set x | x in s| == |s|
  {
    if s == [] {
      assert (set x | x in s) == {};
    } else {
      var rest := s[..|s| - 1];
      DistinctLength(rest);
      assert s == rest + [s[|s| - 1]];
      assert (set x | x in s) == (set x | x in rest) + {s[|s| - 1]};
      assert s[|s| - 1] !in rest;
    }
  }

  lemma AscendsFromHead<T>(a: seq<T>, x: T, le: (T, T) -> bool)
    requires Ascending(a, le)
    requires x in a
    ensures a[0] == x || le(a[0], x)
  {
    var i :| 0 <= i < |a| && a[i] == x;
  }

  lemma TailMembers<T>(a: seq<T>, x: T)
    requires |a| > 0 && Distinct(a)
    ensures x in a[1..] <==> x in a && x != a[0]
  {
    assert a == [a[0]] + a[1..];
  }

  /** A strictly ordered listing of a set is the only one. */
  lemma {:induction false} AscendingUnique<T(!new)>(a: seq<T>, b: seq<T>, le: (T, T) -> bool)
    requires forall x, y :: le(x, y) && le(y, x) ==> x == y
    requires Ascending(a, le) && Ascending(b, le)
    requires Distinct(a) && Distinct(b)
    requires forall x :: x in a <==> x in b
    ensures a == b
  {
    DistinctLength(a);
    DistinctLength(b);
    assert (set x | x in a) == (set x | x in b);
    if a != [] {
      AscendsFromHead(a, b[0], le);
      AscendsFromHead(b, a[0], le);
      forall x
        ensures x in a[1..] <==> x in b[1..]
      {
        TailMembers(a, x);
        TailMembers(b, x);
      }
      AscendingUnique(a[1..], b[1..], le);
      assert a == [a[0]] + a[1..];
      assert b == [b[0]] + b[1..];
    }
  }
}
