/** Tie-averaged ranks, over exact reals. */
module Ranks {
  import opened Sorting

  type Entry = (nat, real)

  predicate ValueLe(a: Entry, b: Entry) {
    a.1 <= b.1
  }

  /** `enumerate(arr)`. */
  function Enumerate(arr: seq<real>): (es: seq<Entry>)
    ensures |es| == |arr|
    ensures forall i :: 0 <= i < |arr| ==> es[i] == (i, arr[i])
  {
    if arr == [] then [] else Enumerate(arr[..|arr| - 1]) + [(|arr| - 1, arr[|arr| - 1])]
  }

  function CountLess(es: seq<Entry>, v: real): nat {
    if es == [] then 0 else CountLess(es[..|es| - 1], v) + if es[|es| - 1].1 < v then 1 else 0
  }

  function CountEqual(es: seq<Entry>, v: real): nat {
    if es == [] then 0 else CountEqual(es[..|es| - 1], v) + if es[|es| - 1].1 == v then 1 else 0
  }

  /** How many values are smaller, plus the middle of those that are equal. */
  function RankOf(es: seq<Entry>, v: real): real {
    CountLess(es, v) as real + (CountEqual(es, v) + 1) as real / 2.0
  }

  /** The ranks a signal is replaced by before a rank correlation. */
  function RankSeq(xs: seq<real>): (r: seq<real>)
    ensures |r| == |xs|
  {
    RanksWithin(Enumerate(xs), |xs|)
  }

  function RanksWithin(es: seq<Entry>, n: nat): (r: seq<real>)
    requires n <= |es|
    ensures |r| == n
    ensures forall i :: 0 <= i < n ==> r[i] == RankOf(es, es[i].1)
  {
    if n == 0 then [] else RanksWithin(es, n - 1) + [RankOf(es, es[n - 1].1)]
  }

  lemma CountsAppend(es: seq<Entry>, e: Entry, v: real)
    ensures CountLess(es + [e], v) == CountLess(es, v) + if e.1 < v then 1 else 0
    ensures CountEqual(es + [e], v) == CountEqual(es, v) + if e.1 == v then 1 else 0
  {
    assert (es + [e])[..|es|] == es;
  }

  lemma {:induction false} CountsInsert(es: seq<Entry>, e: Entry, v: real)
    ensures CountLess(Insert(es, e, ValueLe), v) == CountLess(es, v) + if e.1 < v then 1 else 0
    ensures CountEqual(Insert(es, e, ValueLe), v) == CountEqual(es, v) + if e.1 == v then 1 else 0
  {
    hide CountLess, CountEqual;
    CountsOfNone(v);
    if es == [] {
      CountsAppend([], e, v);
      assert [] + [e] == [e];
    } else {
      var init, last := es[..|es| - 1], es[|es| - 1];
      assert es == init + [last];
      CountsAppend(init, last, v);
      CountsAppend(es, e, v);
      CountsInsert(init, e, v);
      CountsAppend(Insert(init, e, ValueLe), last, v);
    }
  }

  lemma CountsOfNone(v: real)
    ensures CountLess([], v) == 0 && CountEqual([], v) == 0
  {
  }

  /** Sorting changes no count. */
  lemma {:induction false} CountsSort(es: seq<Entry>, v: real)
    ensures CountLess(Sort(es, ValueLe), v) == CountLess(es, v)
    ensures CountEqual(Sort(es, ValueLe), v) == CountEqual(es, v)
  {
    hide CountLess, CountEqual, Insert;
    if es != [] {
      var init, last := es[..|es| - 1], es[|es| - 1];
      assert es == init + [last];
      CountsSort(init, v);
      CountsInsert(Sort(init, ValueLe), last, v);
      CountsAppend(init, last, v);
    }
  }

  /** In a sorted list, counts read off the block of equal values. */
  lemma {:induction false} BlockCounts(es: seq<Entry>, v: real, i: nat, j: nat)
    requires i <= j <= |es|
    requires forall k :: 0 <= k < i ==> es[k].1 < v
    requires forall k :: i <= k < j ==> es[k].1 == v
    requires forall k :: j <= k < |es| ==> es[k].1 > v
    ensures CountLess(es, v) == i && CountEqual(es, v) == j - i
  {
    if es != [] {
      var n := |es| - 1;
      BlockCounts(es[..n], v, if i <= n then i else n, if j <= n then j else n);
    }
  }

  /** `sorted` lists the entries of `arr` in some order. */
  ghost predicate Rearranged(arr: seq<real>, sorted: seq<Entry>) {
    && |sorted| == |arr|
    && (forall a :: 0 <= a < |sorted| ==> sorted[a].0 < |arr| && sorted[a].1 == arr[sorted[a].0])
    && (forall a, b :: 0 <= a < b < |sorted| ==> sorted[a].0 != sorted[b].0)
    && (forall k :: 0 <= k < |arr| ==> (k, arr[k]) in sorted)
  }

  lemma EntryOfArr(arr: seq<real>, es: seq<Entry>, e: Entry)
    requires es == Enumerate(arr) && e in es
    ensures e.0 < |arr| && e.1 == arr[e.0]
  {
  }

  lemma EntriesOfArr(arr: seq<real>, sorted: seq<Entry>)
    requires multiset(sorted) == multiset(Enumerate(arr))
    ensures forall a :: 0 <= a < |sorted| ==> sorted[a].0 < |arr| && sorted[a].1 == arr[sorted[a].0]
  {
    hide Enumerate;
    var es := Enumerate(arr);
    MembersFromMultiset(sorted, es);
    forall a | 0 <= a < |sorted|
      ensures sorted[a].0 < |arr| && sorted[a].1 == arr[sorted[a].0]
    {
      EntryOfArr(arr, es, sorted[a]);
    }
  }

  lemma IndexesDiffer(arr: seq<real>, sorted: seq<Entry>, a: nat, b: nat)
    requires multiset(sorted) == multiset(Enumerate(arr))
    requires a < b < |sorted|
    ensures sorted[a].0 != sorted[b].0
  {
    hide Enumerate;
    EntriesOfArr(arr, sorted);
    OnceEach(Enumerate(arr), sorted[a]);
    TwiceIn(sorted, a, b);
  }

  lemma EntryPresent(arr: seq<real>, sorted: seq<Entry>, k: nat)
    requires multiset(sorted) == multiset(Enumerate(arr)) && k < |arr|
    ensures (k, arr[k]) in sorted
  {
    MembersFromMultiset(sorted, Enumerate(arr));
    assert Enumerate(arr)[k] in Enumerate(arr);
  }

  lemma SortedIsRearranged(arr: seq<real>, sorted: seq<Entry>)
    requires sorted == Sort(Enumerate(arr), ValueLe)
    ensures Rearranged(arr, sorted)
  {
    hide Enumerate, Sort;
    EntriesOfArr(arr, sorted);
    forall a, b | 0 <= a < b < |sorted|
      ensures sorted[a].0 != sorted[b].0
    {
      IndexesDiffer(arr, sorted, a, b);
    }
    forall k | 0 <= k < |arr|
      ensures (k, arr[k]) in sorted
    {
      EntryPresent(arr, sorted, k);
    }
  }

  lemma {:induction false} OnceEach(es: seq<Entry>, e: Entry)
    requires forall i :: 0 <= i < |es| ==> es[i].0 == i
    ensures multiset(es)[e] <= 1
  {
    if es != [] {
      var init, last := es[..|es| - 1], es[|es| - 1];
      OnceEach(init, e);
      assert es == init + [last];
      assert last !in init;
      assert last !in multiset(init);
    }
  }

  lemma TwiceIn(s: seq<Entry>, a: nat, b: nat)
    requires a < b < |s|
    ensures s[a] == s[b] ==> multiset(s)[s[a]] >= 2
  {
    assert s == s[..b] + [s[b]] + s[b + 1..];
    assert s[..b][a] == s[a];
    assert s[a] in s[..b];
    assert s[a] in multiset(s[..b]);
    assert multiset(s) == multiset(s[..b]) + multiset{s[b]} + multiset(s[b + 1..]);
  }

  /** The first `done` sorted entries have their rank written at their own index. */
  ghost predicate Ranked(ranks: seq<real>, sorted: seq<Entry>, done: nat, es: seq<Entry>)
    requires done <= |sorted|
  {
    forall k :: 0 <= k < done ==> sorted[k].0 < |ranks| && ranks[sorted[k].0] == RankOf(es, sorted[k].1)
  }

  /** All entries from `i` to `j`, and no others, share one value. */
  ghost predicate Block(sorted: seq<Entry>, i: nat, j: nat) {
    && i <= j < |sorted|
    && (forall k :: i <= k <= j ==> sorted[k].1 == sorted[i].1)
    && (i > 0 ==> sorted[i - 1].1 < sorted[i].1)
    && (j + 1 < |sorted| ==> sorted[j].1 < sorted[j + 1].1)
  }

  lemma RankWritten(ranks: seq<real>, arr: seq<real>, sorted: seq<Entry>, k: nat, es: seq<Entry>)
    requires Rearranged(arr, sorted) && |ranks| == |arr| && k < |sorted|
    requires Ranked(ranks, sorted, k, es)
    ensures sorted[k].0 < |ranks|
    ensures Ranked(ranks[sorted[k].0 := RankOf(es, sorted[k].1)], sorted, k + 1, es)
  {
    hide RankOf;
  }

  /** The average shared by a block, written at the places its entries came from. */
  method ShareRank(ranks: array<real>, arr: seq<real>, indexed: seq<Entry>, i: nat, j: nat, ghost es: seq<Entry>)
    requires Rearranged(arr, indexed) && ranks.Length == |arr|
    requires i <= j < |indexed|
    requires forall k :: i <= k <= j ==> RankOf(es, indexed[k].1) == (i + j) as real / 2.0 + 1.0
    requires Ranked(ranks[..], indexed, i, es)
    modifies ranks
    ensures Ranked(ranks[..], indexed, j + 1, es)
  {
    hide RankOf, Ranked;
    var average := (i + j) as real / 2.0 + 1.0;
    for k := i to j + 1
      invariant Ranked(ranks[..], indexed, k, es)
    {
      RankWritten(ranks[..], arr, indexed, k, es);
      ghost var before := ranks[..];
      ranks[indexed[k].0] := average;
      assert ranks[..] == before[indexed[k].0 := average];
    }
  }

  lemma NoneRanked(ranks: seq<real>, sorted: seq<Entry>, es: seq<Entry>)
    ensures Ranked(ranks, sorted, 0, es)
  {
  }

  /** One-based ranks, equal values sharing their average, written in place. */
  method Rank(arr: seq<real>) returns (ranks: array<real>)
    ensures fresh(ranks) && ranks.Length == |arr|
    ensures ranks[..] == RankSeq(arr)
  {
    hide RankOf, Sort, Enumerate, Ranked;
    ghost var es := Enumerate(arr);
    var indexed := Sort(Enumerate(arr), ValueLe);
    SortedIsRearranged(arr, indexed);
    hide Rearranged;
    ranks := new real[|arr|](_ => 0.0);
    NoneRanked(ranks[..], indexed, es);
    var i := 0;
    while i < |indexed|
      invariant 0 <= i <= |indexed|
      invariant Ranked(ranks[..], indexed, i, es)
      invariant 0 < i < |indexed| ==> indexed[i - 1].1 < indexed[i].1
    {
      var j := i;
      while j < |indexed| - 1 && indexed[j + 1].1 == indexed[j].1
        invariant i <= j < |indexed|
        invariant forall k :: i <= k <= j ==> indexed[k].1 == indexed[i].1
      {
        j := j + 1;
      }
      BlockRank(es, indexed, i, j);
      ShareRank(ranks, arr, indexed, i, j, es);
      i := j + 1;
    }
    ReadRanks(ranks[..], arr, indexed);
  }

  lemma ReadRanks(ranks: seq<real>, arr: seq<real>, sorted: seq<Entry>)
    requires Rearranged(arr, sorted) && |ranks| == |arr|
    requires Ranked(ranks, sorted, |sorted|, Enumerate(arr))
    ensures ranks == RankSeq(arr)
  {
    hide *;
    forall k | 0 <= k < |arr|
      ensures ranks[k] == RankSeq(arr)[k]
    {
      ReadRank(ranks, arr, sorted, k);
      RankSeqAt(arr, k);
    }
  }

  lemma RankSeqAt(arr: seq<real>, k: nat)
    requires k < |arr|
    ensures RankSeq(arr)[k] == RankOf(Enumerate(arr), arr[k])
  {
    hide RankOf;
  }

  lemma ReadRank(ranks: seq<real>, arr: seq<real>, sorted: seq<Entry>, k: nat)
    requires Rearranged(arr, sorted) && |ranks| == |arr| && k < |arr|
    requires Ranked(ranks, sorted, |sorted|, Enumerate(arr))
    ensures ranks[k] == RankOf(Enumerate(arr), arr[k])
  {
    hide RankOf, Enumerate;
    assert (k, arr[k]) in sorted;
  }

  lemma BlockEnds(sorted: seq<Entry>, i: nat, j: nat)
    requires Ascending(sorted, ValueLe)
    requires i <= j < |sorted|
    requires forall k :: i <= k <= j ==> sorted[k].1 == sorted[i].1
    requires i > 0 ==> sorted[i - 1].1 < sorted[i].1
    requires j + 1 < |sorted| ==> sorted[j + 1].1 != sorted[j].1
    ensures Block(sorted, i, j)
  {
    assert j + 1 < |sorted| ==> ValueLe(sorted[j], sorted[j + 1]);
  }

  lemma BlockRank(es: seq<Entry>, sorted: seq<Entry>, i: nat, j: nat)
    requires sorted == Sort(es, ValueLe)
    requires i <= j < |sorted|
    requires forall k :: i <= k <= j ==> sorted[k].1 == sorted[i].1
    requires i > 0 ==> sorted[i - 1].1 < sorted[i].1
    requires j + 1 < |sorted| ==> sorted[j + 1].1 != sorted[j].1
    ensures forall k :: i <= k <= j ==> RankOf(es, sorted[k].1) == (i + j) as real / 2.0 + 1.0
    ensures j + 1 < |sorted| ==> sorted[j].1 < sorted[j + 1].1
  {
    hide Sort, CountLess, CountEqual, Ascending;
    var v := sorted[i].1;
    SortAscends(es, ValueLe);
    BlockEnds(sorted, i, j);
    CountsSort(es, v);
    BlockApart(sorted, i, j);
    BlockCounts(sorted, v, i, j + 1);
  }

  lemma BlockApart(sorted: seq<Entry>, i: nat, j: nat)
    requires Ascending(sorted, ValueLe) && Block(sorted, i, j)
    ensures forall k :: 0 <= k < i ==> sorted[k].1 < sorted[i].1
    ensures forall k :: j < k < |sorted| ==> sorted[k].1 > sorted[i].1
  {
    forall k | 0 <= k < i
      ensures sorted[k].1 < sorted[i].1
    {
      assert k == i - 1 || ValueLe(sorted[k], sorted[i - 1]);
    }
    forall k | j < k < |sorted|
      ensures sorted[k].1 > sorted[i].1
    {
      assert k == j + 1 || ValueLe(sorted[j + 1], sorted[k]);
    }
  }

  // ----- what ranks mean

  /** Ranks order values: equal on equal values, strictly increasing otherwise. */
  lemma RanksOrder(xs: seq<real>, a: nat, b: nat)
    requires a < |xs| && b < |xs|
    ensures xs[a] < xs[b] <==> RankSeq(xs)[a] < RankSeq(xs)[b]
    ensures xs[a] == xs[b] <==> RankSeq(xs)[a] == RankSeq(xs)[b]
  {
    hide RankOf;
    var es := Enumerate(xs);
    SmallerRank(es, a, xs[b]);
    SmallerRank(es, b, xs[a]);
  }

  lemma {:induction false} CountsSplit(es: seq<Entry>, v: real, w: real)
    requires v < w
    ensures CountLess(es, v) + CountEqual(es, v) <= CountLess(es, w)
  {
    if es != [] {
      CountsSplit(es[..|es| - 1], v, w);
    }
  }

  lemma {:induction false} Present(es: seq<Entry>, a: nat)
    requires a < |es|
    ensures CountEqual(es, es[a].1) > 0
  {
    if a < |es| - 1 {
      Present(es[..|es| - 1], a);
    }
  }

  lemma SmallerRank(es: seq<Entry>, a: nat, w: real)
    requires a < |es|
    ensures es[a].1 < w ==> RankOf(es, es[a].1) < RankOf(es, w)
  {
    hide CountLess, CountEqual;
    Present(es, a);
    if es[a].1 < w {
      CountsSplit(es, es[a].1, w);
    }
  }

  function Sum(xs: seq<real>): real {
    if xs == [] then 0.0 else Sum(xs[..|xs| - 1]) + xs[|xs| - 1]
  }

  /** The ranks of the first n entries, each taken within all of `es`. */
  function RankSum(es: seq<Entry>, n: nat): real
    requires n <= |es|
  {
    Sum(RanksWithin(es, n))
  }

  lemma RankSumStep(es: seq<Entry>, n: nat)
    requires n <= |es|
    ensures RankSum(es, n) == if n == 0 then 0.0 else RankSum(es, n - 1) + RankOf(es, es[n - 1].1)
  {
    hide RankOf;
    if n > 0 {
      var r := RanksWithin(es, n);
      assert r[..|r| - 1] == RanksWithin(es, n - 1);
    }
  }

  function CountGreater(es: seq<Entry>, v: real): nat {
    if es == [] then 0 else CountGreater(es[..|es| - 1], v) + if es[|es| - 1].1 > v then 1 else 0
  }

  lemma {:induction false} CountsTotal(es: seq<Entry>, v: real)
    ensures CountLess(es, v) + CountEqual(es, v) + CountGreater(es, v) == |es|
  {
    if es != [] {
      CountsTotal(es[..|es| - 1], v);
    }
  }

  /** Adding one value raises each earlier rank by one or a half. */
  lemma {:induction false} RankSumGrows(es: seq<Entry>, e: Entry, n: nat)
    requires n <= |es|
    ensures RankSum(es + [e], n)
            == RankSum(es, n) + CountGreater(es[..n], e.1) as real + CountEqual(es[..n], e.1) as real / 2.0
  {
    hide CountLess, RankSum;
    RankSumStep(es, n);
    RankSumStep(es + [e], n);
    if n > 0 {
      RankSumGrows(es, e, n - 1);
      var v := es[n - 1].1;
      CountsAppend(es, e, v);
      assert es[..n][..n - 1] == es[..n - 1];
    }
  }

  lemma {:induction false} RankSumTotal(es: seq<Entry>)
    ensures RankSum(es, |es|) == (|es| * (|es| + 1)) as real / 2.0
  {
    hide RankOf, RankSum, CountLess, CountEqual, CountGreater;
    RankSumStep(es, |es|);
    if es != [] {
      var n := |es| - 1;
      var init, e := es[..n], es[n];
      assert es == init + [e];
      RankSumTotal(init);
      RankSumGrows(init, e, n);
      assert init[..n] == init;
      CountsTotal(init, e.1);
      LastRank(init, e);
      assert (n + 1) * (n + 2) == n * (n + 1) + 2 * (n + 1);
    }
  }

  /** However many ties there are, the ranks of n values sum to n(n + 1) / 2. */
  lemma RanksSum(xs: seq<real>)
    ensures Sum(RankSeq(xs)) == (|xs| * (|xs| + 1)) as real / 2.0
  {
    hide Sum, RanksWithin;
    RankSumTotal(Enumerate(xs));
  }

  lemma LastRank(init: seq<Entry>, e: Entry)
    ensures RankOf(init + [e], e.1) == CountLess(init, e.1) as real + (CountEqual(init, e.1) + 2) as real / 2.0
  {
    hide CountLess, CountEqual;
    CountsAppend(init, e, e.1);
  }

  // ----- ranks see order only

  ghost predicate SameOrder(a: seq<Entry>, b: seq<Entry>) {
    && |a| == |b|
    && forall i, j :: 0 <= i < |a| && 0 <= j < |a| ==> (a[i].1 < a[j].1 <==> b[i].1 < b[j].1)
  }

  lemma {:induction false} CountsFollowOrder(a: seq<Entry>, b: seq<Entry>, n: nat, k: nat)
    requires SameOrder(a, b) && n <= |a| && k < |a|
    ensures CountLess(a[..n], a[k].1) == CountLess(b[..n], b[k].1)
    ensures CountEqual(a[..n], a[k].1) == CountEqual(b[..n], b[k].1)
  {
    if n > 0 {
      CountsFollowOrder(a, b, n - 1, k);
      assert a[..n][..n - 1] == a[..n - 1] && b[..n][..n - 1] == b[..n - 1];
    }
  }

  /** Any strictly increasing change of scale leaves every rank as it was. */
  lemma RanksSeeOrderOnly(xs: seq<real>, ys: seq<real>)
    requires |xs| == |ys|
    requires forall i, j :: 0 <= i < |xs| && 0 <= j < |xs| ==> (xs[i] < xs[j] <==> ys[i] < ys[j])
    ensures RankSeq(xs) == RankSeq(ys)
  {
    var a, b := Enumerate(xs), Enumerate(ys);
    assert SameOrder(a, b);
    forall k | 0 <= k < |xs|
      ensures RankSeq(xs)[k] == RankSeq(ys)[k]
    {
      SameRank(a, b, k);
    }
  }

  lemma SameRank(a: seq<Entry>, b: seq<Entry>, k: nat)
    requires SameOrder(a, b) && k < |a|
    ensures RankOf(a, a[k].1) == RankOf(b, b[k].1)
  {
    CountsFollowOrder(a, b, |a|, k);
    assert a[..|a|] == a && b[..|b|] == b;
  }
}
