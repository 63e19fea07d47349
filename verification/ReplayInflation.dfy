/** Retransmitting a whole frame adds one replay and changes nothing else. */
module ReplayInflation {
  import opened Sorting
  import opened FrameModels
  import opened CanonicalSerializer
  import opened FrameBuilder
  import opened ReplayDetector
  import opened ReplayLaws

  /** One more row at every position, reading what frame j reads there. */
  ghost predicate CopiesFrame(extra: seq<RawRow>, rows: seq<RawRow>, j: nat) {
    && (forall a, b :: 0 <= a < b < |extra| ==> extra[a].position != extra[b].position)
    && PositionsOf(extra) == PositionsOf(rows)
    && forall r :: r in extra ==>
         r.position in SlicePayload(rows, j) && SlicePayload(rows, j)[r.position] == r.fingerprint
  }

  ghost predicate EvenlyOccupied(rows: seq<RawRow>, n: nat) {
    forall p :: p in PositionsOf(rows) ==> CountAt(rows, p) == n
  }

  lemma {:induction false} SingleRow(extra: seq<RawRow>, r: RawRow)
    requires forall a, b :: 0 <= a < b < |extra| ==> extra[a].position != extra[b].position
    requires r in extra
    ensures RowsAt(extra, r.position) == [r]
  {
    hide Select;
    var init, last := extra[..|extra| - 1], extra[|extra| - 1];
    assert extra == init + [last];
    RowsAtAppend(init, last, r.position);
    if r == last {
      PositiveCount(init, r.position);
      assert r.position !in PositionsOf(init);
    } else {
      assert r in init;
      SingleRow(init, r);
    }
  }

  /** Columns of the extended group: one more row each. */
  lemma ExtendedColumn(rows: seq<RawRow>, extra: seq<RawRow>, j: nat, n: nat, p: Position)
    requires CopiesFrame(extra, rows, j) && EvenlyOccupied(rows, n)
    requires p in PositionsOf(rows)
    ensures |RowsAt(rows + extra, p)| == n + 1
    ensures RowsAt(rows + extra, p)[..n] == RowsAt(rows, p)
    ensures p in SlicePayload(rows, j) && RowsAt(rows + extra, p)[n].fingerprint == SlicePayload(rows, j)[p]
  {
    hide SlicePayload, Select;
    SelectAppend(rows, extra, At(p));
    var r :| r in extra && r.position == p;
    SingleRow(extra, r);
  }

  lemma ExtendedSlice(rows: seq<RawRow>, extra: seq<RawRow>, j: nat, n: nat, k: nat)
    requires CopiesFrame(extra, rows, j) && EvenlyOccupied(rows, n)
    requires PositionsOf(rows + extra) == PositionsOf(rows)
    requires j < n && k <= n
    ensures SlicePositions(rows + extra, k) == PositionsOf(rows)
    ensures k < n ==> SliceRows(rows + extra, k) == SliceRows(rows, k)
    ensures SlicePayload(rows + extra, k) == SlicePayload(rows, if k < n then k else j)
  {
    hide RowsAt, CopiesFrame, PositionsOf;
    forall p | p in PositionsOf(rows)
      ensures |RowsAt(rows + extra, p)| == n + 1 && RowsAt(rows + extra, p)[..n] == RowsAt(rows, p)
      ensures p in SlicePayload(rows, j) && RowsAt(rows + extra, p)[n].fingerprint == SlicePayload(rows, j)[p]
    {
      ExtendedColumn(rows, extra, j, n, p);
    }
    assert SlicePositions(rows + extra, k) == PositionsOf(rows);
    assert SlicePositions(rows, j) == PositionsOf(rows);
    if k < n {
      assert SlicePositions(rows, k) == PositionsOf(rows);
      forall p | p in PositionsOf(rows)
        ensures RowsAt(rows + extra, p)[k] == RowsAt(rows, p)[k]
      {
        assert RowsAt(rows + extra, p)[..n][k] == RowsAt(rows, p)[k];
      }
    }
  }

  lemma ExtendedOccupancy(rows: seq<RawRow>, extra: seq<RawRow>, j: nat, n: nat)
    requires CopiesFrame(extra, rows, j) && EvenlyOccupied(rows, n)
    ensures PositionsOf(rows + extra) == PositionsOf(rows)
    ensures EvenlyOccupied(rows + extra, n + 1)
  {
    assert PositionsOf(rows + extra) == PositionsOf(rows) + PositionsOf(extra);
    hide RowsAt, CopiesFrame, PositionsOf;
    forall p | p in PositionsOf(rows)
      ensures |RowsAt(rows + extra, p)| == n + 1
    {
      ExtendedColumn(rows, extra, j, n, p);
    }
  }

  lemma EvenFrameCount(g: TimestampGroup, n: nat)
    requires WellFormedGroup(g) && g.rows != [] && EvenlyOccupied(g.rows, n)
    ensures DescribeOccupancy(g).ImpliedFrameCount() == n
  {
    hide MaxOf, DescribeOccupancy;
    MaxOccurrence(g);
  }

  // ----- the order of the positions stays

  /** Rows in order that come after all of some others. */
  ghost predicate Behind(rows: seq<RawRow>, later: seq<RawRow>) {
    && Ascending(later, SlotLe)
    && forall r, x :: r in rows && x in later ==> SlotLe(r, x)
  }

  lemma BehindPrefix(rows: seq<RawRow>, init: seq<RawRow>, last: RawRow)
    requires Behind(rows, init + [last])
    ensures Behind(rows, init)
    ensures forall r :: r in rows + init ==> SlotLe(r, last)
  {
    hide SlotLe;
    var later := init + [last];
    assert later[|init|] == last;
    forall k | 0 <= k < |init|
      ensures SlotLe(init[k], last)
    {
      assert later[k] == init[k];
    }
    forall a, b | 0 <= a < b < |init|
      ensures SlotLe(init[a], init[b])
    {
      assert later[a] == init[a] && later[b] == init[b];
    }
  }

  lemma InsertBehind(s: seq<RawRow>, x: RawRow)
    requires forall r :: r in s ==> SlotLe(r, x)
    ensures Insert(s, x, SlotLe) == s + [x]
  {
    hide SlotLe;
  }

  lemma SortPush(s: seq<RawRow>, x: RawRow)
    ensures Sort(s + [x], SlotLe) == Insert(Sort(s, SlotLe), x, SlotLe)
  {
    assert (s + [x])[..|s|] == s;
  }

  lemma {:induction false} SortKeepsLater(rows: seq<RawRow>, later: seq<RawRow>)
    requires Behind(rows, later)
    ensures Sort(rows + later, SlotLe) == Sort(rows, SlotLe) + later
  {
    hide *;
    if later == [] {
      assert rows + later == rows;
    } else {
      var init, last := later[..|later| - 1], later[|later| - 1];
      assert later == init + [last];
      BehindPrefix(rows, init, last);
      SortKeepsLater(rows, init);
      SortPush(rows + init, last);
      assert rows + later == (rows + init) + [last];
      MembersFromMultiset(Sort(rows + init, SlotLe), rows + init);
      InsertBehind(Sort(rows + init, SlotLe), last);
    }
  }

  lemma {:induction false} FirstSeenKeeps(s: seq<RawRow>, t: seq<RawRow>)
    requires PositionsOf(t) <= PositionsOf(s)
    ensures FirstSeen(s + t) == FirstSeen(s)
  {
    hide PositionsOf, FirstSeen;
    if t == [] {
      assert s + t == s;
    } else {
      var init, last := t[..|t| - 1], t[|t| - 1];
      assert t == init + [last];
      PositionsOfAppend(init, last);
      FirstSeenKeeps(s, init);
      FirstSeenAppend(s + init, last);
      FirstSeenListsPositions(s);
      assert s + t == (s + init) + [last];
    }
  }

  /** A row of an indexed group is what its place says. */
  lemma {:induction false} IndexedAt(rows: seq<RawRow>, b: nat)
    requires SourceIndexed(rows) && b < |rows|
    ensures rows[b].occurrence == CountAt(rows[..b], rows[b].position)
    ensures forall a :: 0 <= a < b ==> rows[a].number < rows[b].number
  {
    hide CountAt;
    var init := rows[..|rows| - 1];
    if b < |init| {
      IndexedAt(init, b);
      assert init[..b] == rows[..b];
      assert forall a :: 0 <= a <= b ==> init[a] == rows[a];
    } else {
      assert rows[..b] == init;
      assert forall a :: 0 <= a < b ==> rows[a] in init;
    }
  }

  lemma CountOfPart(rows: seq<RawRow>, extra: seq<RawRow>, p: Position)
    ensures CountAt(rows, p) <= CountAt(rows + extra, p)
  {
    SelectAppend(rows, extra, At(p));
  }

  lemma CopiedRowsLast(rows: seq<RawRow>, extra: seq<RawRow>, j: nat, n: nat, a: nat, b: nat)
    requires SourceIndexed(rows + extra) && CopiesFrame(extra, rows, j) && EvenlyOccupied(rows, n)
    requires a < b && |rows| <= b < |rows + extra|
    ensures SlotLe((rows + extra)[a], (rows + extra)[b])
  {
    hide RowsAt, CopiesFrame;
    var all := rows + extra;
    IndexedAt(all, a);
    IndexedAt(all, b);
    OccurrenceBound(rows, extra, j, n, all[a]);
    assert all[a] in all && all[..b] == rows + extra[..b - |rows|];
    CountOfPart(rows, extra[..b - |rows|], all[b].position);
    assert all[b] == extra[b - |rows|];
    CopiesSeen(extra, rows, j, all[b]);
  }

  lemma CopiesSeen(extra: seq<RawRow>, rows: seq<RawRow>, j: nat, r: RawRow)
    requires CopiesFrame(extra, rows, j) && r in extra
    ensures r.position in PositionsOf(rows)
  {
  }

  lemma OccurrenceBound(rows: seq<RawRow>, extra: seq<RawRow>, j: nat, n: nat, r: RawRow)
    requires SourceIndexed(rows + extra) && CopiesFrame(extra, rows, j) && EvenlyOccupied(rows, n)
    ensures r in rows + extra ==> r.occurrence <= n
  {
    if r in rows + extra {
      hide CountAt, CopiesFrame, Select, SourceIndexed;
      ExtendedOccupancy(rows, extra, j, n);
      RowInColumn(rows + extra, r);
      assert r.position in PositionsOf(rows + extra);
      assert CountAt(rows + extra, r.position) == n + 1;
      CountIsLength(rows + extra, r.position);
    }
  }

  lemma CountIsLength(rows: seq<RawRow>, p: Position)
    ensures CountAt(rows, p) == |RowsAt(rows, p)|
  {
  }

  lemma CopiesBehind(rows: seq<RawRow>, extra: seq<RawRow>, j: nat, n: nat)
    requires SourceIndexed(rows + extra) && CopiesFrame(extra, rows, j) && EvenlyOccupied(rows, n)
    ensures Behind(rows, extra)
  {
    hide SlotLe, SourceIndexed, CopiesFrame, EvenlyOccupied;
    var all := rows + extra;
    forall a, b | 0 <= a < |all| && |rows| <= b < |all| && a < b
      ensures SlotLe(all[a], all[b])
    {
      CopiedRowsLast(rows, extra, j, n, a, b);
    }
    forall r, x | r in rows && x in extra
      ensures SlotLe(r, x)
    {
      var a :| 0 <= a < |rows| && rows[a] == r;
      var b :| 0 <= b < |extra| && extra[b] == x;
      assert all[a] == r && all[|rows| + b] == x;
    }
    forall a, b | 0 <= a < b < |extra|
      ensures SlotLe(extra[a], extra[b])
    {
      assert all[|rows| + a] == extra[a] && all[|rows| + b] == extra[b];
    }
  }

  lemma SameBucketOrder(g: TimestampGroup, h: TimestampGroup, extra: seq<RawRow>, j: nat, n: nat)
    requires SourceIndexed(h.rows) && h.rows == g.rows + extra
    requires CopiesFrame(extra, g.rows, j) && EvenlyOccupied(g.rows, n)
    ensures BucketOrder(h) == BucketOrder(g)
  {
    hide SlotLe, SourceIndexed, EvenlyOccupied, Sort, FirstSeen, PositionsOf, Behind;
    CopiesBehind(g.rows, extra, j, n);
    SortKeepsLater(g.rows, extra);
    SortedPositions(g.rows);
    FirstSeenKeeps(Sort(g.rows, SlotLe), extra);
  }

  lemma SortedPositions(rows: seq<RawRow>)
    ensures PositionsOf(Sort(rows, SlotLe)) == PositionsOf(rows)
  {
    MembersFromMultiset(Sort(rows, SlotLe), rows);
  }

  // ----- verdicts follow from order and digests

  /** What classification looks at. */
  ghost predicate SameFrame(a: FrameCandidate, b: FrameCandidate) {
    a.sequence == b.sequence && a.order == b.order && a.rowsByPosition == b.rowsByPosition
  }

  ghost predicate SameVerdict(f: ClassifiedFrame, e: ClassifiedFrame) {
    && SameFrame(f.candidate, e.candidate) && f.fingerprint == e.fingerprint
    && f.classification == e.classification && f.replayOf == e.replayOf
  }

  ghost predicate SameVerdicts(fs: seq<ClassifiedFrame>, es: seq<ClassifiedFrame>) {
    |fs| == |es| && forall i :: 0 <= i < |fs| ==> SameVerdict(fs[i], es[i])
  }

  lemma {:induction false} SameRepresentative(fs: seq<ClassifiedFrame>, es: seq<ClassifiedFrame>, fingerprint: string)
    requires SameVerdicts(fs, es)
    ensures FirstRepresentative(fs, fingerprint) == FirstRepresentative(es, fingerprint)
  {
    if fs != [] {
      SameRepresentative(fs[..|fs| - 1], es[..|es| - 1], fingerprint);
    }
  }

  lemma SameNext(fs: seq<ClassifiedFrame>, es: seq<ClassifiedFrame>, c: FrameCandidate, d: FrameCandidate)
    requires SameVerdicts(fs, es) && SameFrame(c, d) && Listed(c)
    ensures Listed(d) && SameVerdict(Verdict(fs, c), Verdict(es, d))
  {
    hide FirstRepresentative, StructuralIssues, Matching, Differing, PayloadFingerprint, Lists;
    SameRepresentative(fs, es, Fingerprint(c));
    if fs != [] {
      assert SameVerdict(fs[0], es[0]);
    }
  }

  lemma {:induction false} SameClassified(cs: seq<FrameCandidate>, ds: seq<FrameCandidate>)
    requires |cs| == |ds|
    requires forall i :: 0 <= i < |cs| ==> SameFrame(cs[i], ds[i])
    requires (forall c :: c in cs ==> Listed(c)) && (forall d :: d in ds ==> Listed(d))
    ensures SameVerdicts(Classify(cs), Classify(ds))
  {
    hide SameFrame, Listed, Verdict;
    if cs != [] {
      var n := |cs| - 1;
      SameClassified(cs[..n], ds[..n]);
      SameNext(Classify(cs[..n]), Classify(ds[..n]), cs[n], ds[n]);
    }
  }

  // ----- frames over the same positions

  /** All frames list the same positions in the same order. */
  ghost predicate Uniform(cs: seq<FrameCandidate>, order: seq<Position>) {
    forall c :: c in cs ==> Listed(c) && c.order == order
  }

  /** Each frame's fingerprint leads to its replay target, or to itself. */
  ghost predicate Traced(rs: seq<ClassifiedFrame>, i: nat)
    requires i < |rs|
  {
    FirstRepresentative(rs, rs[i].fingerprint)
    == if rs[i].replayOf.Some? then rs[i].replayOf else Some(rs[i].candidate.sequence)
  }

  lemma SameKeysSamePayload(c: FrameCandidate, first: FrameCandidate)
    requires Listed(c) && Listed(first) && c.order == first.order
    requires Differing(c.Payload(), first.Payload()) == {}
    ensures c.Payload() == first.Payload() && Fingerprint(c) == Fingerprint(first)
  {
    hide FrameCandidate.Payload, PayloadFingerprint;
    var a, b := c.Payload(), first.Payload();
    assert forall p :: p in a <==> p in c.order;
    assert forall p :: p in b <==> p in c.order;
    forall p | p in a
      ensures a[p] == b[p]
    {
      assert p !in Differing(a, b);
    }
    assert a == b;
  }

  /** So none is a partial replay, and its fingerprint can be traced. */
  lemma UniformNext(rs: seq<ClassifiedFrame>, c: FrameCandidate)
    requires Listed(c)
    requires rs != [] ==>
               && Listed(rs[0].candidate) && rs[0].candidate.order == c.order
               && rs[0].fingerprint == Fingerprint(rs[0].candidate)
               && FirstRepresentative(rs, rs[0].fingerprint).Some?
    ensures var f := Verdict(rs, c);
            && f.classification != PARTIAL_FRAME_REPLAY
            && f.candidate == c && f.fingerprint == Fingerprint(c)
            && (f.replayOf.None? ==> Represents(f) && FirstRepresentative(rs, f.fingerprint) == None)
            && (f.replayOf.Some? ==> f.classification == FULL_FRAME_REPLAY
                                     && FirstRepresentative(rs, f.fingerprint) == f.replayOf)
  {
    hide StructuralIssues, Matching, Fingerprint, Listed, FrameCandidate.Payload, Differing;
    if rs != [] {
      if Differing(c.Payload(), rs[0].candidate.Payload()) == {} {
        SameKeysSamePayload(c, rs[0].candidate);
      }
    } else {
      assert FirstRepresentative(rs, Fingerprint(c)) == None;
    }
  }

  lemma {:induction false} AllTraced(cs: seq<FrameCandidate>, order: seq<Position>)
    requires Uniform(cs, order)
    ensures forall i :: 0 <= i < |cs| ==> Traced(Classify(cs), i)
  {
    hide Fingerprint, Listed, FirstRepresentative, Verdict;
    if cs != [] {
      var init, c := cs[..|cs| - 1], cs[|cs| - 1];
      AllTraced(init, order);
      VerdictKeepsCandidate(init);
      var rs := Classify(init);
      if rs != [] {
        assert Traced(rs, 0) && rs[0].candidate in cs;
      }
      UniformNext(rs, c);
      var f := Verdict(rs, c);
      forall i | 0 <= i < |cs|
        ensures Traced(rs + [f], i)
      {
        RepresentativeAppend(rs, f, (rs + [f])[i].fingerprint);
        assert i < |rs| ==> Traced(rs, i);
      }
    }
  }

  // ----- the two groups

  lemma EvenCandidate(g: TimestampGroup, pct: real, n: nat, k: nat)
    requires EvenlyOccupied(g.rows, n) && k < n
    ensures var c := SliceCandidate(g, pct, k);
            c.sequence == k && c.order == BucketOrder(g) && c.rowsByPosition == SliceRows(g.rows, k) && Listed(c)
  {
    hide SliceRows, DescribeOccupancy, BucketOrder, PositionsOf, Listed, RowsAt;
    BucketOrderLists(g);
    SelectAll(BucketOrder(g), DeeperThan(g.rows, k));
    SliceListed(g, pct, k);
  }

  lemma EvenCandidates(g: TimestampGroup, pct: real, maxFrames: int, n: nat)
    requires WellFormedGroup(g) && g.rows != [] && EvenlyOccupied(g.rows, n) && n <= maxFrames
    ensures var cs := Candidates(g, pct, maxFrames);
            && |cs| == n && Uniform(cs, BucketOrder(g))
            && forall k :: 0 <= k < n ==>
                 && cs[k].sequence == k
                 && cs[k].rowsByPosition == SliceRows(g.rows, k)
                 && cs[k].Payload() == SlicePayload(g.rows, k)
  {
    hide WellFormedGroup, EvenlyOccupied, SliceCandidate, DescribeOccupancy, SliceRows, SlicePayload, BucketOrder,
      Listed, FrameCandidate.Payload;
    EvenFrameCount(g, n);
    forall k: nat | k < n
      ensures var c := SliceCandidate(g, pct, k);
              c.sequence == k && c.order == BucketOrder(g) && c.rowsByPosition == SliceRows(g.rows, k) && Listed(c)
              && c.Payload() == SlicePayload(g.rows, k)
    {
      EvenCandidate(g, pct, n, k);
      CandidatePayload(g, pct, k);
    }
    assert Candidates(g, pct, maxFrames) == SliceCandidates(g, pct, n);
  }

  /** The copy's fingerprint leads where that of the frame it copies leads. */
  lemma CopyVerdict(cs: seq<FrameCandidate>, c: FrameCandidate, order: seq<Position>, j: nat)
    requires Uniform(cs + [c], order) && j < |cs| && c.Payload() == cs[j].Payload()
    ensures forall d :: d in cs ==> Listed(d)
    ensures var rs, f := Classify(cs), Classify(cs + [c])[|cs|];
            && f.classification == FULL_FRAME_REPLAY && f.candidate == c
            && f.replayOf == if rs[j].replayOf.Some? then rs[j].replayOf else Some(rs[j].candidate.sequence)
  {
    hide Fingerprint, Listed, FirstRepresentative, StructuralIssues, Matching, Differing, FrameCandidate.Payload;
    assert forall d :: d in cs ==> d in cs + [c];
    assert c in cs + [c] && cs[j] in cs;
    AllTraced(cs, order);
    ClassifyAppend(cs, c);
    VerdictKeepsCandidate(cs);
    SamePrint(cs[j], c);
    assert Traced(Classify(cs), j);
  }

  lemma SamePrint(a: FrameCandidate, b: FrameCandidate)
    requires Listed(a) && Listed(b) && a.order == b.order && a.Payload() == b.Payload()
    ensures Fingerprint(a) == Fingerprint(b)
  {
  }

  /** The longer group's frames: those of the shorter one, and the copy. */
  lemma CopiedCandidates(
      g: TimestampGroup, h: TimestampGroup, extra: seq<RawRow>, j: nat, n: nat, pct: real, maxFrames: int)
    requires WellFormedGroup(g) && WellFormedGroup(h) && h.rows == g.rows + extra && g.rows != []
    requires EvenlyOccupied(g.rows, n) && j < n < maxFrames
    requires CopiesFrame(extra, g.rows, j)
    ensures var before, after := Candidates(g, pct, maxFrames), Candidates(h, pct, maxFrames);
            && |before| == n && |after| == n + 1 && Uniform(before, BucketOrder(g)) && Uniform(after, BucketOrder(g))
            && (forall k :: 0 <= k < n ==> before[k].sequence == k && SameFrame(after[k], before[k]))
            && after[n].Payload() == before[j].Payload()
  {
    hide WellFormedGroup, EvenlyOccupied, CopiesFrame, Candidates, Uniform, SliceRows, SlicePayload, BucketOrder,
      FrameCandidate.Payload;
    WellFormedIndexed(h);
    SameBucketOrder(g, h, extra, j, n);
    ExtendedOccupancy(g.rows, extra, j, n);
    EvenCandidates(g, pct, maxFrames, n);
    EvenCandidates(h, pct, maxFrames, n + 1);
    var before, after := Candidates(g, pct, maxFrames), Candidates(h, pct, maxFrames);
    forall k | 0 <= k <= n
      ensures k < n ==> SliceRows(h.rows, k) == SliceRows(g.rows, k)
      ensures k == n ==> SlicePayload(h.rows, k) == SlicePayload(g.rows, j)
    {
      ExtendedSlice(g.rows, extra, j, n, k);
    }
    forall k | 0 <= k < n
      ensures SameFrame(after[k], before[k])
    {
      UniformOrder(after, BucketOrder(g), k);
      UniformOrder(before, BucketOrder(g), k);
    }
  }

  lemma WellFormedIndexed(g: TimestampGroup)
    requires WellFormedGroup(g)
    ensures SourceIndexed(g.rows)
  {
  }

  lemma UniformOrder(cs: seq<FrameCandidate>, order: seq<Position>, k: nat)
    requires Uniform(cs, order) && k < |cs|
    ensures cs[k].order == order
  {
    assert cs[k] in cs;
  }

  /** The same frames and a copy of frame j: the same verdicts, and a full replay. */
  lemma CopyClassified(cs: seq<FrameCandidate>, ds: seq<FrameCandidate>, order: seq<Position>, j: nat)
    requires Uniform(cs, order) && Uniform(ds, order) && |ds| == |cs| + 1 && j < |cs|
    requires forall k :: 0 <= k < |cs| ==> cs[k].sequence == k && SameFrame(ds[k], cs[k])
    requires ds[|cs|].Payload() == cs[j].Payload()
    ensures (forall c :: c in cs ==> Listed(c)) && (forall d :: d in ds ==> Listed(d))
    ensures var before, after := Classify(cs), Classify(ds);
            && (forall k :: 0 <= k < |cs| ==> SameVerdict(after[k], before[k]))
            && after[|cs|].classification == FULL_FRAME_REPLAY
            && after[|cs|].candidate == ds[|cs|]
            && after[|cs|].replayOf == if before[j].replayOf.Some? then before[j].replayOf else Some(j)
  {
    hide Verdict, Listed, FrameCandidate.Payload, SameFrame, Classify;
    var n := |cs|;
    var init := ds[..n];
    assert ds == init + [ds[n]];
    SameFrameFields(init[j], cs[j]);
    CopyVerdict(init, ds[n], order, j);
    ClassifyAppend(init, ds[n]);
    SameClassified(init, cs);
    VerdictKeepsCandidate(init);
    var rs, es := Classify(cs), Classify(init);
    assert SameVerdict(es[j], rs[j]);
    forall k | 0 <= k < n
      ensures SameVerdict(Classify(ds)[k], rs[k])
    {
      assert Classify(ds)[k] == es[k];
    }
  }

  /** Appending a row-for-row copy of frame j to an evenly occupied group leaves every
      earlier verdict as it was and adds exactly one frame: a full replay of what frame j
      is, or of what frame j replays. Positions that render alike make no difference. */
  lemma CopyAddsOneReplay(
      g: TimestampGroup, h: TimestampGroup, extra: seq<RawRow>, j: nat, n: nat, pct: real, maxFrames: int)
    requires WellFormedGroup(g) && WellFormedGroup(h) && h.rows == g.rows + extra && g.rows != []
    requires EvenlyOccupied(g.rows, n) && j < n < maxFrames
    requires CopiesFrame(extra, g.rows, j)
    ensures var before, after := Classified(g, pct, maxFrames), Classified(h, pct, maxFrames);
            && |before| == n && |after| == n + 1
            && (forall k :: 0 <= k < n ==>
                  && after[k].classification == before[k].classification
                  && after[k].replayOf == before[k].replayOf
                  && after[k].candidate.rowsByPosition == before[k].candidate.rowsByPosition)
            && after[n].classification == FULL_FRAME_REPLAY
            && after[n].candidate.Payload() == before[j].candidate.Payload()
            && after[n].replayOf == if before[j].replayOf.Some? then before[j].replayOf else Some(j)
  {
    hide WellFormedGroup, EvenlyOccupied, CopiesFrame, Candidates, BucketOrder, Listed, FrameCandidate.Payload,
      Classify, SameFrame, Uniform;
    CopiedCandidates(g, h, extra, j, n, pct, maxFrames);
    CandidatesListed(g, pct, maxFrames);
    CandidatesListed(h, pct, maxFrames);
    CopyClassified(Candidates(g, pct, maxFrames), Candidates(h, pct, maxFrames), BucketOrder(g), j);
    VerdictKeepsCandidate(Candidates(g, pct, maxFrames));
    forall k | 0 <= k < n
      ensures Classified(h, pct, maxFrames)[k].candidate.rowsByPosition
              == Classified(g, pct, maxFrames)[k].candidate.rowsByPosition
    {
      SameFrameFields(Classified(h, pct, maxFrames)[k].candidate, Classified(g, pct, maxFrames)[k].candidate);
    }
  }

  lemma SameFrameFields(a: FrameCandidate, b: FrameCandidate)
    requires SameFrame(a, b)
    ensures a.Payload() == b.Payload() && a.sequence == b.sequence && a.rowsByPosition == b.rowsByPosition
  {
  }
}
