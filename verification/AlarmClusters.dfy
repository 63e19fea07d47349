/** Temporal clusters of alarms: a greedy sliding window over the sorted alarm times. */
module AlarmClusters {
  import opened Sorting
  import opened FrameModels

  /** An alarm record; its start time may be missing or unreadable. */
  datatype AlarmRecord = AlarmRecord(time: Option<int>, code: string)

  datatype Alarm = Alarm(time: int, code: string)

  datatype Evidence = OBSERVATION | WEAK_CANDIDATE | MODERATE_CANDIDATE

  /** Sorted alarms `from..to` reported as one cluster. */
  datatype Cluster = Cluster(from: nat, to: nat, codes: set<string>, evidence: Evidence)

  predicate EarlierLe(a: Alarm, b: Alarm) {
    a.time <= b.time
  }

  function Timed(records: seq<AlarmRecord>): seq<Alarm> {
    if records == [] then []
    else
      var last := records[|records| - 1];
      Timed(records[..|records| - 1]) + if last.time.Some? then [Alarm(last.time.value, last.code)] else []
  }

  function CodesOf(s: seq<Alarm>): set<string> {
    set a | a in s :: a.code
  }

  function EvidenceOf(size: int, distinct: nat, minCount: int): Evidence {
    if distinct >= 3 then MODERATE_CANDIDATE
    else if size >= minCount * 2 then WEAK_CANDIDATE
    else OBSERVATION
  }

  /** The first index from `j` on whose time lies beyond `limit`. */
  function Reach(s: seq<Alarm>, j: nat, limit: int): (r: nat)
    requires j <= |s|
    ensures j <= r <= |s|
    decreases |s| - j
  {
    if j < |s| && s[j].time <= limit then Reach(s, j + 1, limit) else j
  }

  lemma {:induction false} ReachIsFirst(s: seq<Alarm>, j: nat, limit: int)
    requires j <= |s|
    ensures forall k :: j <= k < Reach(s, j, limit) ==> s[k].time <= limit
    ensures Reach(s, j, limit) < |s| ==> s[Reach(s, j, limit)].time > limit
    decreases |s| - j
  {
    if j < |s| && s[j].time <= limit {
      ReachIsFirst(s, j + 1, limit);
    }
  }

  function WindowEnd(s: seq<Alarm>, i: nat, window: int): (j: nat)
    requires i < |s|
    ensures i <= j <= |s|
    ensures i < j <==> window >= 0
  {
    Reach(s, i, s[i].time + window)
  }

  lemma WindowEndIsFirst(s: seq<Alarm>, i: nat, window: int)
    requires i < |s|
    ensures forall k :: i <= k < WindowEnd(s, i, window) ==> s[k].time <= s[i].time + window
    ensures WindowEnd(s, i, window) < |s| ==> s[WindowEnd(s, i, window)].time > s[i].time + window
  {
    hide Reach;
    ReachIsFirst(s, i, s[i].time + window);
  }

  function ClusterOf(s: seq<Alarm>, i: nat, j: nat, minCount: int): Cluster
    requires i <= j <= |s|
  {
    var codes := CodesOf(s[i..j]);
    Cluster(i, j, codes, EvidenceOf(j - i, |codes|, minCount))
  }

  /** Where the scan continues after looking at `i`. */
  function NextStart(s: seq<Alarm>, i: nat, window: int, minCount: int): nat
    requires i < |s|
  {
    var j := WindowEnd(s, i, window);
    if j - i >= minCount then j else i + 1
  }

  /** The scan moves forward exactly when the window is not negative or a cluster
      needs at least one alarm. */
  lemma ScanProgresses(s: seq<Alarm>, i: nat, window: int, minCount: int)
    requires i < |s|
    ensures NextStart(s, i, window, minCount) > i <==> window >= 0 || minCount >= 1
  {
  }

  function Greedy(s: seq<Alarm>, i: nat, window: int, minCount: int): seq<Cluster>
    requires i <= |s|
    requires window >= 0 || minCount >= 1
    decreases |s| - i
  {
    if i == |s| then []
    else
      ScanProgresses(s, i, window, minCount);
      var j := WindowEnd(s, i, window);
      if j - i >= minCount
      then [ClusterOf(s, i, j, minCount)] + Greedy(s, j, window, minCount)
      else Greedy(s, i + 1, window, minCount)
  }

  lemma GreedyStep(s: seq<Alarm>, i: nat, window: int, minCount: int)
    requires i < |s|
    requires window >= 0 || minCount >= 1
    ensures var j := WindowEnd(s, i, window);
            && (j - i >= minCount ==>
                  i < j && Greedy(s, i, window, minCount)
                    == [ClusterOf(s, i, j, minCount)] + Greedy(s, j, window, minCount))
            && (j - i < minCount ==> Greedy(s, i, window, minCount) == Greedy(s, i + 1, window, minCount))
  {
    hide WindowEnd, ClusterOf;
  }

  lemma {:induction false} TooFewLeft(s: seq<Alarm>, i: nat, window: int, minCount: int)
    requires i <= |s| && |s| - i < minCount
    ensures Greedy(s, i, window, minCount) == []
    decreases |s| - i
  {
    if i < |s| {
      TooFewLeft(s, i + 1, window, minCount);
    }
  }

  lemma {:induction false} TimedLength(records: seq<AlarmRecord>)
    ensures |Timed(records)| <= |records|
  {
    if records != [] {
      TimedLength(records[..|records| - 1]);
    }
  }

  lemma TimedPush(records: seq<AlarmRecord>, r: AlarmRecord)
    ensures Timed(records + [r]) == Timed(records) + if r.time.Some? then [Alarm(r.time.value, r.code)] else []
  {
    assert (records + [r])[..|records|] == records;
  }

  /** The two early exits for too few alarms change nothing: the answer is the greedy
      scan of whatever times could be read. */
  method FindClusters(records: seq<AlarmRecord>, window: int, minCount: int) returns (clusters: seq<Cluster>)
    requires window >= 0 || minCount >= 1
    ensures clusters == Greedy(Sort(Timed(records), EarlierLe), 0, window, minCount)
  {
    hide Sort, Greedy, Timed;
    clusters := [];
    TimedLength(records);
    if |records| < minCount {
      TooFewLeft(Sort(Timed(records), EarlierLe), 0, window, minCount);
      return;
    }
    var alarms := [];
    TimedNothing();
    assert records[..0] == [];
    for n := 0 to |records|
      invariant alarms == Timed(records[..n])
    {
      TimedPush(records[..n], records[n]);
      assert records[..n + 1] == records[..n] + [records[n]];
      if records[n].time.Some? {
        alarms := alarms + [Alarm(records[n].time.value, records[n].code)];
      }
    }
    assert records[..|records|] == records;
    var s := Sort(alarms, EarlierLe);
    if |alarms| < minCount {
      TooFewLeft(s, 0, window, minCount);
      return;
    }
    clusters := SlideWindow(s, window, minCount);
  }

  lemma TimedNothing()
    ensures Timed([]) == []
  {
  }

  lemma NoneLeft(s: seq<Alarm>, window: int, minCount: int)
    requires window >= 0 || minCount >= 1
    ensures Greedy(s, |s|, window, minCount) == []
  {
  }

  method SlideWindow(s: seq<Alarm>, window: int, minCount: int) returns (clusters: seq<Cluster>)
    requires window >= 0 || minCount >= 1
    ensures clusters == Greedy(s, 0, window, minCount)
  {
    hide Greedy, ClusterOf;
    clusters := [];
    NoneLeft(s, window, minCount);
    var i := 0;
    while i < |s|
      invariant 0 <= i <= |s|
      invariant clusters + Greedy(s, i, window, minCount) == Greedy(s, 0, window, minCount)
    {
      GreedyStep(s, i, window, minCount);
      var windowEnd := s[i].time + window;
      var j := i;
      while j < |s| && s[j].time <= windowEnd
        invariant i <= j <= |s|
        invariant Reach(s, j, windowEnd) == WindowEnd(s, i, window)
      {
        j := j + 1;
      }
      if j - i >= minCount {
        clusters := clusters + [ClusterOf(s, i, j, minCount)];
        i := j;
      } else {
        i := i + 1;
      }
    }
  }

  // ----- what is reported

  ghost predicate InOrder(s: seq<Alarm>) {
    forall i, j :: 0 <= i < j < |s| ==> s[i].time <= s[j].time
  }

  lemma SortedInOrder(alarms: seq<Alarm>)
    ensures InOrder(Sort(alarms, EarlierLe))
  {
    hide Sort;
    SortAscends(alarms, EarlierLe);
    var s := Sort(alarms, EarlierLe);
    forall i, j | 0 <= i < j < |s|
      ensures s[i].time <= s[j].time
    {
      assert EarlierLe(s[i], s[j]);
    }
  }

  /** A run of at least `minCount` alarms within one window. */
  ghost predicate Dense(s: seq<Alarm>, a: nat, b: nat, window: int, minCount: int) {
    && a < b <= |s|
    && b - a >= minCount
    && s[b - 1].time <= s[a].time + window
  }

  ghost predicate DisjointFrom(cs: seq<Cluster>, i: nat) {
    && (forall c :: c in cs ==> i <= c.from)
    && (forall a, b :: 0 <= a < b < |cs| ==> cs[a].to <= cs[b].from)
  }

  /** A cluster lists the codes of its alarms; three codes make it a moderate candidate, and
      twice the alarms asked for a weak one. */
  ghost predicate Described(s: seq<Alarm>, c: Cluster, minCount: int) {
    && c.from <= c.to <= |s|
    && (forall code :: code in c.codes <==> exists k :: c.from <= k < c.to && s[k].code == code)
    && (c.evidence == MODERATE_CANDIDATE <==> |c.codes| >= 3)
    && (c.evidence == WEAK_CANDIDATE <==> |c.codes| < 3 && c.to - c.from >= 2 * minCount)
  }

  lemma ClusterDescribed(s: seq<Alarm>, i: nat, j: nat, minCount: int)
    requires i <= j <= |s|
    ensures Described(s, ClusterOf(s, i, j, minCount), minCount)
  {
    var run := s[i..j];
    forall k | i <= k < j
      ensures s[k] in run
    {
      assert run[k - i] == s[k];
    }
    forall a | a in run
      ensures exists k :: i <= k < j && s[k] == a
    {
      var m :| 0 <= m < |run| && run[m] == a;
      assert s[i + m] == a;
    }
  }

  /** Clusters are disjoint and in time order, and each is a dense run that could not
      be longer, with its codes and evidence. */
  lemma {:induction false} ClustersDense(s: seq<Alarm>, i: nat, window: int, minCount: int)
    requires i <= |s|
    requires window >= 0 || minCount >= 1
    ensures var cs := Greedy(s, i, window, minCount);
            && DisjointFrom(cs, i)
            && (forall c :: c in cs ==>
                  && Dense(s, c.from, c.to, window, minCount) && Described(s, c, minCount)
                  && (c.to < |s| ==> s[c.to].time > s[c.from].time + window))
    decreases |s| - i
  {
    hide Greedy, WindowEnd, Described;
    NoneLeft(s, window, minCount);
    if i < |s| {
      GreedyStep(s, i, window, minCount);
      WindowEndIsFirst(s, i, window);
      var j := WindowEnd(s, i, window);
      if j - i >= minCount {
        ClusterDescribed(s, i, j, minCount);
        ClustersDense(s, j, window, minCount);
      } else {
        ClustersDense(s, i + 1, window, minCount);
      }
    }
  }

  lemma ClusterSpans(s: seq<Alarm>, i: nat, j: nat, minCount: int)
    requires i <= j <= |s|
    ensures ClusterOf(s, i, j, minCount).from == i && ClusterOf(s, i, j, minCount).to == j
  {
  }

  lemma DenseWithin(s: seq<Alarm>, a: nat, b: nat, window: int, minCount: int)
    requires Dense(s, a, b, window, minCount)
    ensures a < b <= |s| && b - a >= minCount
  {
  }

  lemma WindowHolds(s: seq<Alarm>, a: nat, b: nat, window: int, minCount: int)
    requires InOrder(s) && Dense(s, a, b, window, minCount)
    ensures WindowEnd(s, a, window) >= b
  {
    hide WindowEnd;
    WindowEndIsFirst(s, a, window);
    forall k | a <= k < b
      ensures s[k].time <= s[a].time + window
    {
      assert k == b - 1 || s[k].time <= s[b - 1].time;
    }
  }

  /** Every dense run starts inside a reported cluster. */
  lemma {:induction false} DenseRunHit(s: seq<Alarm>, i: nat, a: nat, b: nat, window: int, minCount: int)
    returns (c: Cluster)
    requires InOrder(s)
    requires window >= 0 || minCount >= 1
    requires i <= a && Dense(s, a, b, window, minCount)
    ensures c in Greedy(s, i, window, minCount) && c.from <= a < c.to
    decreases |s| - i
  {
    hide Greedy, WindowEnd, ClusterOf, InOrder;
    GreedyStep(s, i, window, minCount);
    var j := WindowEnd(s, i, window);
    DenseWithin(s, a, b, window, minCount);
    if i == a {
      WindowHolds(s, a, b, window, minCount);
    }
    if j - i >= minCount {
      if j > a {
        c := ClusterOf(s, i, j, minCount);
        assert c.from == i && c.to == j by {
          ClusterSpans(s, i, j, minCount);
        }
      } else {
        c := DenseRunHit(s, j, a, b, window, minCount);
      }
    } else {
      c := DenseRunHit(s, i + 1, a, b, window, minCount);
    }
  }

  /** Nothing is reported exactly when no run of alarms is dense. */
  lemma SilentIffSparse(s: seq<Alarm>, window: int, minCount: int)
    requires InOrder(s)
    requires window >= 0 || minCount >= 1
    ensures Greedy(s, 0, window, minCount) == [] <==> forall a, b :: !Dense(s, a, b, window, minCount)
  {
    hide Greedy, Dense;
    var cs := Greedy(s, 0, window, minCount);
    ClustersDense(s, 0, window, minCount);
    if cs != [] {
      assert cs[0] in cs;
    }
    forall a, b
      ensures Dense(s, a, b, window, minCount) ==> cs != []
    {
      if Dense(s, a, b, window, minCount) {
        var c := DenseRunHit(s, 0, a, b, window, minCount);
      }
    }
  }

  // ----- a cluster is everything in its window

  /** No alarm before `i` has its time, unless the scan has already found that too few
      follow it. */
  ghost predicate Fresh(s: seq<Alarm>, i: nat, window: int, minCount: int)
    requires i <= |s|
  {
    0 < i < |s| ==> s[i - 1].time < s[i].time || WindowEnd(s, i - 1, window) - (i - 1) < minCount
  }

  lemma FreshStartsCluster(s: seq<Alarm>, i: nat, window: int, minCount: int)
    requires InOrder(s) && i < |s| && Fresh(s, i, window, minCount)
    requires window >= 0
    ensures WindowEnd(s, i, window) - i >= minCount && i > 0 ==> s[i - 1].time < s[i].time
    ensures Fresh(s, NextStart(s, i, window, minCount), window, minCount)
  {
    WindowEndIsFirst(s, i, window);
  }

  lemma ClusterFillsWindow(s: seq<Alarm>, i: nat, window: int, k: nat)
    requires InOrder(s) && i < |s| && k < |s|
    requires i > 0 ==> s[i - 1].time < s[i].time
    ensures i <= k < WindowEnd(s, i, window) <==> s[i].time <= s[k].time <= s[i].time + window
  {
    hide WindowEnd;
    WindowEndIsFirst(s, i, window);
    var j := WindowEnd(s, i, window);
    assert k < i ==> k == i - 1 || s[k].time <= s[i - 1].time;
    assert i < k ==> s[i].time <= s[k].time;
    assert j < k ==> s[j].time <= s[k].time;
  }

  lemma {:induction false} FillsWindowFrom(s: seq<Alarm>, i: nat, window: int, minCount: int, c: Cluster, k: nat)
    requires InOrder(s) && i <= |s| && k < |s| && Fresh(s, i, window, minCount)
    requires window >= 0
    requires c in Greedy(s, i, window, minCount)
    ensures c.from < |s|
    ensures c.from <= k < c.to <==> s[c.from].time <= s[k].time <= s[c.from].time + window
    decreases |s| - i
  {
    hide Fresh, Greedy, WindowEnd, CodesOf, EvidenceOf;
    NoneLeft(s, window, minCount);
    GreedyStep(s, i, window, minCount);
    var j := WindowEnd(s, i, window);
    FreshStartsCluster(s, i, window, minCount);
    if j - i >= minCount && c == ClusterOf(s, i, j, minCount) {
      ClusterFillsWindow(s, i, window, k);
    } else if j - i >= minCount {
      FillsWindowFrom(s, j, window, minCount, c, k);
    } else {
      FillsWindowFrom(s, i + 1, window, minCount, c, k);
    }
  }

  /** A cluster is exactly the alarms from its first time up to `window` later. */
  lemma ClustersFillWindows(s: seq<Alarm>, window: int, minCount: int, c: Cluster, k: nat)
    requires InOrder(s) && k < |s|
    requires window >= 0
    requires c in Greedy(s, 0, window, minCount)
    ensures c.from < |s|
    ensures c.from <= k < c.to <==> s[c.from].time <= s[k].time <= s[c.from].time + window
  {
    hide Greedy;
    FillsWindowFrom(s, 0, window, minCount, c, k);
  }

  // ----- the order of the records does not matter

  function CountUpTo(s: seq<Alarm>, t: int): (n: nat)
    ensures n <= |s|
  {
    if s == [] then 0 else CountUpTo(s[..|s| - 1], t) + if s[|s| - 1].time <= t then 1 else 0
  }

  lemma {:induction false} CountUpToAppend(x: seq<Alarm>, y: seq<Alarm>, t: int)
    ensures CountUpTo(x + y, t) == CountUpTo(x, t) + CountUpTo(y, t)
  {
    if y == [] {
      assert x + y == x;
    } else {
      var init := y[..|y| - 1];
      assert (x + y)[..|x + y| - 1] == x + init;
      CountUpToAppend(x, init, t);
    }
  }

  lemma {:induction false} CountUpToRearranged(x: seq<Alarm>, y: seq<Alarm>, t: int)
    requires multiset(x) == multiset(y)
    ensures CountUpTo(x, t) == CountUpTo(y, t)
  {
    hide CountUpTo;
    if x == [] {
      assert |multiset(y)| == 0;
    } else {
      var init, a := x[..|x| - 1], x[|x| - 1];
      var before, after := TakeOut(x, y);
      assert x == init + [a];
      CountUpToRearranged(init, before + after, t);
      CountUpToAppend(before + [a], after, t);
      CountUpToAppend(before, [a], t);
      CountUpToAppend(before, after, t);
      CountUpToAppend(init, [a], t);
    }
  }

  /** In sorted alarms, the times up to `t` are the first ones. */
  lemma {:induction false} CountIsPlace(s: seq<Alarm>, t: int, k: nat)
    requires InOrder(s) && k < |s|
    ensures s[k].time <= t <==> k < CountUpTo(s, t)
  {
    var n := |s| - 1;
    if k < n {
      CountIsPlace(s[..n], t, k);
    } else if s[n].time <= t {
      AllUpTo(s, t);
    }
  }

  lemma {:induction false} AllUpTo(s: seq<Alarm>, t: int)
    requires forall k :: 0 <= k < |s| ==> s[k].time <= t
    ensures CountUpTo(s, t) == |s|
  {
    if s != [] {
      AllUpTo(s[..|s| - 1], t);
    }
  }

  ghost predicate SameTimes(x: seq<Alarm>, y: seq<Alarm>) {
    && |x| == |y|
    && forall k :: 0 <= k < |x| ==> x[k].time == y[k].time
  }

  lemma SortedTimesAgree(x: seq<Alarm>, y: seq<Alarm>)
    requires multiset(x) == multiset(y)
    requires InOrder(x) && InOrder(y)
    ensures SameTimes(x, y)
  {
    hide CountUpTo, InOrder;
    assert |multiset(x)| == |multiset(y)|;
    forall k | 0 <= k < |x|
      ensures x[k].time == y[k].time
    {
      CountUpToRearranged(x, y, x[k].time);
      CountIsPlace(x, x[k].time, k);
      CountIsPlace(y, x[k].time, k);
      CountUpToRearranged(x, y, y[k].time);
      CountIsPlace(x, y[k].time, k);
      CountIsPlace(y, y[k].time, k);
    }
  }

  lemma {:induction false} SameReach(x: seq<Alarm>, y: seq<Alarm>, j: nat, limit: int)
    requires SameTimes(x, y) && j <= |x|
    ensures Reach(x, j, limit) == Reach(y, j, limit)
    decreases |x| - j
  {
    if j < |x| && x[j].time <= limit {
      SameReach(x, y, j + 1, limit);
    }
  }

  lemma SameAlarms(x: seq<Alarm>, y: seq<Alarm>, i: nat, window: int, a: Alarm)
    requires multiset(x) == multiset(y)
    requires InOrder(x) && InOrder(y) && SameTimes(x, y)
    requires i < |x| && (i > 0 ==> x[i - 1].time < x[i].time)
    requires WindowEnd(x, i, window) == WindowEnd(y, i, window)
    ensures a in x[i..WindowEnd(x, i, window)] ==> a in y[i..WindowEnd(x, i, window)]
  {
    hide WindowEnd, InOrder;
    var j := WindowEnd(x, i, window);
    if a in x[i..j] {
      var k :| 0 <= k < j - i && x[i..j][k] == a;
      assert x[i + k] == a;
      ClusterFillsWindow(x, i, window, i + k);
      MembersFromMultiset(x, y);
      assert a in x;
      var m :| 0 <= m < |y| && y[m] == a;
      ClusterFillsWindow(y, i, window, m);
      assert y[i..j][m - i] == a;
    }
  }

  lemma SameCluster(x: seq<Alarm>, y: seq<Alarm>, i: nat, window: int, minCount: int)
    requires multiset(x) == multiset(y)
    requires InOrder(x) && InOrder(y) && SameTimes(x, y)
    requires i < |x| && (i > 0 ==> x[i - 1].time < x[i].time)
    requires WindowEnd(x, i, window) == WindowEnd(y, i, window)
    ensures ClusterOf(x, i, WindowEnd(x, i, window), minCount) == ClusterOf(y, i, WindowEnd(x, i, window), minCount)
  {
    hide WindowEnd, InOrder;
    var j := WindowEnd(x, i, window);
    forall a
      ensures a in x[i..j] <==> a in y[i..j]
    {
      SameAlarms(x, y, i, window, a);
      SameAlarms(y, x, i, window, a);
    }
    assert CodesOf(x[i..j]) == CodesOf(y[i..j]);
  }

  lemma SameWindowEnd(x: seq<Alarm>, y: seq<Alarm>, i: nat, window: int)
    requires SameTimes(x, y) && i < |x|
    ensures WindowEnd(x, i, window) == WindowEnd(y, i, window)
  {
    SameReach(x, y, i, x[i].time + window);
  }

  lemma {:induction false} SameClusters(x: seq<Alarm>, y: seq<Alarm>, i: nat, window: int, minCount: int)
    requires multiset(x) == multiset(y)
    requires InOrder(x) && InOrder(y) && SameTimes(x, y)
    requires window >= 0
    requires i <= |x| && Fresh(x, i, window, minCount)
    ensures Greedy(x, i, window, minCount) == Greedy(y, i, window, minCount)
    decreases |x| - i
  {
    hide InOrder, Fresh, ClusterOf, Greedy, WindowEnd;
    NoneLeft(x, window, minCount);
    NoneLeft(y, window, minCount);
    if i < |x| {
      SameWindowEnd(x, y, i, window);
      FreshStartsCluster(x, i, window, minCount);
      GreedyStep(x, i, window, minCount);
      GreedyStep(y, i, window, minCount);
      var j := WindowEnd(x, i, window);
      if j - i >= minCount {
        SameCluster(x, y, i, window, minCount);
        SameClusters(x, y, j, window, minCount);
      } else {
        SameClusters(x, y, i + 1, window, minCount);
      }
    }
  }

  /** However the records are ordered, the same clusters with the same codes are
      reported. */
  lemma ClustersIgnoreOrder(x: seq<Alarm>, y: seq<Alarm>, window: int, minCount: int)
    requires multiset(x) == multiset(y)
    requires window >= 0 || minCount >= 1
    ensures Greedy(Sort(x, EarlierLe), 0, window, minCount) == Greedy(Sort(y, EarlierLe), 0, window, minCount)
  {
    hide Sort, Greedy, InOrder, SameTimes;
    var s, t := Sort(x, EarlierLe), Sort(y, EarlierLe);
    SortedInOrder(x);
    SortedInOrder(y);
    SortedTimesAgree(s, t);
    if window >= 0 {
      SameClusters(s, t, 0, window, minCount);
    } else {
      NegativeWindow(s, 0, window, minCount);
      NegativeWindow(t, 0, window, minCount);
    }
  }

  lemma {:induction false} NegativeWindow(s: seq<Alarm>, i: nat, window: int, minCount: int)
    requires window < 0 && minCount >= 1 && i <= |s|
    ensures Greedy(s, i, window, minCount) == []
    decreases |s| - i
  {
    if i < |s| {
      NegativeWindow(s, i + 1, window, minCount);
    }
  }
}
