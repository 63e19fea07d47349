/** Intervals between a charger-day's samples: their median, 95th percentile and
    extremes, in microseconds. */
module Cadence {
  import opened Sorting
  import opened FrameModels
  import opened Instants
  import opened Rounding

  datatype IntervalStats = IntervalStats(median: real, p95: int, least: int, most: int)

  predicate Shorter(a: int, b: int) {
    a <= b
  }

  predicate Positive(d: int) {
    d > 0
  }

  /** The intervals between consecutive stamps. */
  function Steps(stamps: seq<int>): (r: seq<int>)
    ensures |r| == if stamps == [] then 0 else |stamps| - 1
    ensures forall i :: 0 <= i < |r| ==> r[i] == stamps[i + 1] - stamps[i]
  {
    if |stamps| < 2 then []
    else
      var n := |stamps| - 1;
      Steps(stamps[..n]) + [stamps[n] - stamps[n - 1]]
  }

  /** The middle of an ordered list, or halfway between its two middles. */
  function Median(ordered: seq<int>): real
    requires ordered != []
  {
    var n := |ordered|;
    if n % 2 == 1 then ordered[n / 2] as real else (ordered[n / 2 - 1] + ordered[n / 2]) as real / 2.0
  }

  /** 0.95 (n - 1), rounded half to even. */
  function P95Index(n: nat): (k: nat)
    requires n > 0
    ensures n / 2 <= k < n
  {
    HalfEven(19 * (n - 1), 20)
  }

  function StatsOf(stamps: seq<int>): Option<IntervalStats> {
    var ordered := Sort(Select(Steps(stamps), Positive), Shorter);
    if ordered == [] then None
    else
      var n := |ordered|;
      Some(IntervalStats(Median(ordered), ordered[P95Index(n)], ordered[0], ordered[n - 1]))
  }

  // ----- laws

  lemma AscendingAt(s: seq<int>, i: nat, j: nat)
    requires Ascending(s, Shorter) && i <= j < |s|
    ensures s[i] <= s[j]
  {
    assert i == j || Shorter(s[i], s[j]);
  }

  lemma MedianBetween(s: seq<int>)
    requires s != [] && Ascending(s, Shorter)
    ensures s[0] as real <= Median(s) <= s[|s| / 2] as real
  {
    AscendingAt(s, 0, |s| / 2);
    if |s| % 2 == 0 {
      AscendingAt(s, 0, |s| / 2 - 1);
      AscendingAt(s, |s| / 2 - 1, |s| / 2);
    }
  }

  /** The four statistics are in order, whatever the stamps. */
  lemma StatsOrdered(stamps: seq<int>)
    requires StatsOf(stamps).Some?
    ensures var st := StatsOf(stamps).value;
            0 < st.least && st.least as real <= st.median <= st.p95 as real && st.p95 <= st.most
  {
    hide Steps, Median, Sort, Select;
    var steps := Select(Steps(stamps), Positive);
    var ordered := Sort(steps, Shorter);
    SortAscends(steps, Shorter);
    MedianBetween(ordered);
    AscendingAt(ordered, |ordered| / 2, P95Index(|ordered|));
    AscendingAt(ordered, P95Index(|ordered|), |ordered| - 1);
    MembersFromMultiset(ordered, steps);
    SelectMembers(Steps(stamps), Positive);
    assert ordered[0] in ordered;
  }

  /** The ends of an ordered rearrangement bound every element and are elements. */
  lemma EndsBound(s: seq<int>, ordered: seq<int>)
    requires s != [] && multiset(ordered) == multiset(s) && Ascending(ordered, Shorter)
    ensures ordered != []
    ensures forall i :: 0 <= i < |s| ==> ordered[0] <= s[i] <= ordered[|ordered| - 1]
    ensures ordered[0] in s && ordered[|ordered| - 1] in s
  {
    MembersFromMultiset(ordered, s);
    assert s[0] in ordered;
    forall i | 0 <= i < |s|
      ensures ordered[0] <= s[i] <= ordered[|ordered| - 1]
    {
      assert s[i] in ordered;
      var j: nat :| j < |ordered| && ordered[j] == s[i];
      AscendingAt(ordered, 0, j);
      AscendingAt(ordered, j, |ordered| - 1);
    }
  }

  /** Over increasing stamps no interval is dropped, and the shortest and the longest of
      the statistics bound every interval and are reached. */
  lemma ExtremesBoundSteps(stamps: seq<int>)
    requires Increasing(stamps) && |stamps| >= 2
    ensures StatsOf(stamps).Some?
    ensures var st, steps := StatsOf(stamps).value, Steps(stamps);
            && (forall i :: 0 <= i < |steps| ==> st.least <= steps[i] <= st.most)
            && st.least in steps && st.most in steps
  {
    hide Sort, Select, Median, P95Index, Shorter, Positive;
    var steps := Steps(stamps);
    AllPositive(stamps);
    var ordered := Sort(steps, Shorter);
    SortedAscends(steps);
    EndsBound(steps, ordered);
  }

  lemma AllPositive(stamps: seq<int>)
    requires Increasing(stamps)
    ensures Select(Steps(stamps), Positive) == Steps(stamps)
  {
    hide Steps;
    forall i | 0 <= i < |Steps(stamps)|
      ensures Steps(stamps)[i] > 0
    {
      assert stamps[i] < stamps[i + 1];
    }
    SelectAll(Steps(stamps), Positive);
  }

  lemma SortedAscends(s: seq<int>)
    ensures Ascending(Sort(s, Shorter), Shorter)
  {
    SortAscends(s, Shorter);
  }
}
