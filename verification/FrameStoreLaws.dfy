/** What any number of deletions leaves behind, and what every run of the store keeps. */
module FrameStoreLaws {
  import opened FrameModels
  import opened FrameStore

  // ----- deleting for several files

  /** A request: delete for this file and version. */
  type Request = (FileId, string)

  ghost function Fold(t: Tables, requests: seq<Request>): Tables {
    if requests == [] then t
    else
      var (file, version) := requests[|requests| - 1];
      Deleted(Fold(t, requests[..|requests| - 1]), file, version)
  }

  ghost function RequestSet(requests: seq<Request>): set<Request> {
    set r | r in requests
  }

  /** Every source of the frame is asked to be deleted, and it has one. */
  ghost predicate Abandoned(t: Tables, asked: set<Request>, id: FrameId) {
    && id in t.frames
    && (exists f :: (id, f) in t.sources)
    && (forall f :: (id, f) in t.sources ==> (f, t.frames[id].version) in asked)
  }

  /** This source, or provenance row, is one of those asked to be deleted. */
  ghost predicate Released(t: Tables, asked: set<Request>, id: FrameId, file: FileId) {
    id in t.frames && (id, file) in t.sources && (file, t.frames[id].version) in asked
  }

  ghost function Reset(t: Tables, asked: set<Request>, id: FrameId): StoredFrame
    requires id in t.frames
  {
    var f := t.frames[id];
    if f.replayOf.Some? && Abandoned(t, asked, f.replayOf.value) then f.(replayOf := None) else f
  }

  /** All at once: abandoned frames go, and so does every released source and row. */
  ghost function DeletedAll(t: Tables, asked: set<Request>): Tables {
    Tables(
      map id | id in t.frames && !Abandoned(t, asked, id) :: Reset(t, asked, id),
      map k | k in t.sources && !Released(t, asked, k.0, k.1) :: t.sources[k],
      map k | k in t.rows && !Abandoned(t, asked, k.0) && !Released(t, asked, k.0, k.1) :: t.rows[k])
  }

  lemma NothingAsked(t: Tables)
    ensures DeletedAll(t, {}) == t
  {
    forall id
      ensures !Abandoned(t, {}, id)
    {
    }
    hide Abandoned;
    var d := DeletedAll(t, {});
    assert d.frames == t.frames;
    assert d.sources == t.sources;
    assert d.rows == t.rows;
  }

  lemma SourcesLeft(t: Tables, asked: set<Request>, id: FrameId, file: FileId)
    ensures (id, file) in DeletedAll(t, asked).sources <==> (id, file) in t.sources && !Released(t, asked, id, file)
  {
  }

  lemma VersionsKept(t: Tables, asked: set<Request>, id: FrameId)
    ensures id in DeletedAll(t, asked).frames <==> id in t.frames && !Abandoned(t, asked, id)
    ensures id in DeletedAll(t, asked).frames ==> DeletedAll(t, asked).frames[id] == Reset(t, asked, id)
    ensures id in DeletedAll(t, asked).frames ==> DeletedAll(t, asked).frames[id].version == t.frames[id].version
  {
  }

  /** A frame goes with one more request exactly when it is gone by then or goes now. */
  lemma AbandonedByOneMore(t: Tables, asked: set<Request>, file: FileId, version: string, id: FrameId)
    requires Consistent(t)
    ensures Abandoned(t, asked + {(file, version)}, id)
            <==> Abandoned(t, asked, id) || Gone(DeletedAll(t, asked), file, version, id)
  {
    hide DeletedAll, Reset;
    var d := DeletedAll(t, asked);
    VersionsKept(t, asked, id);
    forall f
      ensures (id, f) in d.sources <==> (id, f) in t.sources && !Released(t, asked, id, f)
    {
      SourcesLeft(t, asked, id, f);
    }
    if Abandoned(t, asked + {(file, version)}, id) && !Abandoned(t, asked, id) {
      var f :| (id, f) in t.sources && (f, t.frames[id].version) !in asked;
      assert (id, f) in d.sources;
    }
  }

  lemma ReleasedByOneMore(t: Tables, asked: set<Request>, file: FileId, version: string, id: FrameId, f: FileId)
    ensures Released(t, asked + {(file, version)}, id, f)
            <==> Released(t, asked, id, f)
                 || (id in t.frames && f == file && (id, file) in t.sources && t.frames[id].version == version)
  {
  }

  lemma ContributesLater(t: Tables, asked: set<Request>, file: FileId, version: string, id: FrameId)
    ensures Contributes(DeletedAll(t, asked), file, version, id)
            <==> id in t.frames && !Abandoned(t, asked, id) && t.frames[id].version == version
                 && (id, file) in t.sources && !Released(t, asked, id, file)
  {
    hide DeletedAll, Reset, Abandoned, Released;
    VersionsKept(t, asked, id);
    SourcesLeft(t, asked, id, file);
  }

  lemma AbandonedHasNoneLeft(t: Tables, asked: set<Request>, id: FrameId, file: FileId)
    requires Abandoned(t, asked, id)
    ensures (id, file) in t.sources ==> Released(t, asked, id, file)
  {
  }

  lemma OneMoreFrames(t: Tables, asked: set<Request>, file: FileId, version: string)
    requires Consistent(t)
    ensures Deleted(DeletedAll(t, asked), file, version).frames == DeletedAll(t, asked + {(file, version)}).frames
  {
    hide DeletedAll, Abandoned, Gone, Released, Deleted, Consistent, Reset, Unlinked;
    var more := asked + {(file, version)};
    var a, b := Deleted(DeletedAll(t, asked), file, version), DeletedAll(t, more);
    forall id
      ensures id in a.frames <==> id in b.frames
      ensures id in a.frames && id in b.frames ==> a.frames[id] == b.frames[id]
    {
      OneMoreFrame(t, asked, file, version, id);
    }
  }

  lemma DeletedFrame(d: Tables, file: FileId, version: string, id: FrameId)
    ensures id in Deleted(d, file, version).frames <==> id in d.frames && !Gone(d, file, version, id)
    ensures id in Deleted(d, file, version).frames ==>
            Deleted(d, file, version).frames[id] == Unlinked(d, file, version, id)
  {
    hide Gone, Unlinked;
  }

  lemma OneMoreFrame(t: Tables, asked: set<Request>, file: FileId, version: string, id: FrameId)
    requires Consistent(t)
    ensures var a, b := Deleted(DeletedAll(t, asked), file, version), DeletedAll(t, asked + {(file, version)});
            && (id in a.frames <==> id in b.frames)
            && (id in a.frames && id in b.frames ==> a.frames[id] == b.frames[id])
  {
    hide DeletedAll, Abandoned, Gone, Released, Deleted, Consistent;
    var d := DeletedAll(t, asked);
    VersionsKept(t, asked, id);
    VersionsKept(t, asked + {(file, version)}, id);
    DeletedFrame(d, file, version, id);
    AbandonedByOneMore(t, asked, file, version, id);
    if id in t.frames && t.frames[id].replayOf.Some? {
      AbandonedByOneMore(t, asked, file, version, t.frames[id].replayOf.value);
    }
  }

  lemma OneMoreSource(t: Tables, asked: set<Request>, file: FileId, version: string, k: SourceKey)
    requires Consistent(t)
    ensures k in Deleted(DeletedAll(t, asked), file, version).sources
            <==> k in DeletedAll(t, asked + {(file, version)}).sources
  {
    hide Abandoned, Released, Contributes, Consistent;
    var d := DeletedAll(t, asked);
    ContributesLater(t, asked, file, version, k.0);
    ReleasedByOneMore(t, asked, file, version, k.0, k.1);
    if Abandoned(t, asked, k.0) {
      AbandonedHasNoneLeft(t, asked, k.0, k.1);
    }
    SourcesLeft(t, asked, k.0, k.1);
    SourcesLeft(t, asked + {(file, version)}, k.0, k.1);
  }

  lemma OneMoreRow(t: Tables, asked: set<Request>, file: FileId, version: string, k: RowKey)
    requires Consistent(t)
    ensures k in Deleted(DeletedAll(t, asked), file, version).rows
            <==> k in DeletedAll(t, asked + {(file, version)}).rows
  {
    hide Abandoned, Released, Contributes, Consistent, Gone;
    AbandonedByOneMore(t, asked, file, version, k.0);
    ContributesLater(t, asked, file, version, k.0);
    ReleasedByOneMore(t, asked, file, version, k.0, k.1);
  }

  lemma OneMoreRequest(t: Tables, asked: set<Request>, file: FileId, version: string)
    requires Consistent(t)
    ensures Deleted(DeletedAll(t, asked), file, version) == DeletedAll(t, asked + {(file, version)})
  {
    hide Abandoned, Released, Contributes, Consistent, Gone;
    var a, b := Deleted(DeletedAll(t, asked), file, version), DeletedAll(t, asked + {(file, version)});
    OneMoreFrames(t, asked, file, version);
    forall k
      ensures k in a.sources <==> k in b.sources
    {
      OneMoreSource(t, asked, file, version, k);
    }
    assert a.sources == b.sources;
    forall k
      ensures k in a.rows <==> k in b.rows
    {
      OneMoreRow(t, asked, file, version, k);
    }
    assert a.rows == b.rows;
  }

  /** Deleting for one file after another comes to deleting for all of them at once. */
  lemma {:induction false} DeletionsAreOne(t: Tables, requests: seq<Request>)
    requires Consistent(t)
    ensures Fold(t, requests) == DeletedAll(t, RequestSet(requests))
  {
    hide DeletedAll, Deleted, Consistent;
    if requests == [] {
      assert RequestSet(requests) == {};
      NothingAsked(t);
    } else {
      var init, last := requests[..|requests| - 1], requests[|requests| - 1];
      DeletionsAreOne(t, init);
      OneMoreRequest(t, RequestSet(init), last.0, last.1);
      assert requests == init + [last];
      assert RequestSet(requests) == RequestSet(init) + {last};
    }
  }

  /** Which files were deleted is all that matters: not their order, not how often. */
  lemma OnlyRequestsMatter(t: Tables, xs: seq<Request>, ys: seq<Request>)
    requires Consistent(t)
    requires forall r :: r in xs <==> r in ys
    ensures Fold(t, xs) == Fold(t, ys)
  {
    hide Fold, DeletedAll, Consistent;
    DeletionsAreOne(t, xs);
    DeletionsAreOne(t, ys);
    assert RequestSet(xs) == RequestSet(ys);
  }

  /** A second deletion changes nothing, and deletions for two files commute. */
  lemma DeletionsCommute(t: Tables, x: Request, y: Request)
    requires Consistent(t)
    ensures Deleted(Deleted(t, x.0, x.1), x.0, x.1) == Deleted(t, x.0, x.1)
    ensures Deleted(Deleted(t, x.0, x.1), y.0, y.1) == Deleted(Deleted(t, y.0, y.1), x.0, x.1)
  {
    hide Consistent, Deleted;
    FoldOne(t, x);
    FoldTwo(t, x, x);
    FoldTwo(t, x, y);
    FoldTwo(t, y, x);
    OnlyRequestsMatter(t, [x], [x, x]);
    OnlyRequestsMatter(t, [x, y], [y, x]);
  }

  lemma FoldOne(t: Tables, x: Request)
    ensures Fold(t, [x]) == Deleted(t, x.0, x.1)
  {
    hide Deleted;
    assert [x][..0] == [];
  }

  lemma FoldTwo(t: Tables, x: Request, y: Request)
    ensures Fold(t, [x, y]) == Deleted(Deleted(t, x.0, x.1), y.0, y.1)
  {
    hide Deleted;
    FoldOne(t, x);
    assert [x, y][..1] == [x];
  }

  // ----- what one deletion leaves alone

  /** Other files keep all their sources. */
  lemma OtherSourcesKept(t: Tables, file: FileId, version: string, k: SourceKey)
    requires k.1 != file
    ensures k in Deleted(t, file, version).sources <==> k in t.sources
    ensures k in t.sources ==> Deleted(t, file, version).sources[k] == t.sources[k]
  {
  }

  /** Another file's row is lost exactly when it hangs on a frame this file alone is
      recorded as a source of. */
  lemma OtherRowLostIff(t: Tables, file: FileId, version: string, k: RowKey)
    requires k in t.rows && k.1 != file
    ensures k !in Deleted(t, file, version).rows <==> Gone(t, file, version, k.0)
    ensures k in Deleted(t, file, version).rows ==> Deleted(t, file, version).rows[k] == t.rows[k]
  {
    hide Gone;
  }

  /** With provenance recorded for every row, other files keep all their rows. */
  lemma OtherRowsKept(t: Tables, file: FileId, version: string, k: RowKey)
    requires Sourced(t)
    requires k.1 != file
    ensures k in Deleted(t, file, version).rows <==> k in t.rows
  {
    if k in t.rows {
      OtherRowLostIff(t, file, version, k);
      assert (k.0, k.1) in t.sources;
    }
  }

  /** A frame of another version keeps everything; its replay pointer too, exactly when
      it does not point at a frame that goes. */
  lemma OtherVersionsKept(t: Tables, file: FileId, version: string, id: FrameId)
    requires id in t.frames && t.frames[id].version != version
    ensures id in Deleted(t, file, version).frames
    ensures var after := Deleted(t, file, version).frames[id];
            && after.(replayOf := t.frames[id].replayOf) == t.frames[id]
            && (after == t.frames[id] <==>
                  !(t.frames[id].replayOf.Some? && Gone(t, file, version, t.frames[id].replayOf.value)))
  {
  }

  // ----- every run of the store

  datatype Operation =
    | InsertFrame(id: FrameId, frame: StoredFrame)
    | InsertSource(key: SourceKey, source: FrameSource)
    | InsertRow(rowKey: RowKey, row: FrameRow)
    | Point(replay: FrameId, target: FrameId)
    | Delete(file: FileId, version: string)

  ghost predicate SameIdentity(a: StoredFrame, b: StoredFrame) {
    a.key == b.key && a.sequence == b.sequence && a.version == b.version
  }

  ghost predicate IdentityFree(t: Tables, frame: StoredFrame) {
    forall other :: other in t.frames ==> !SameIdentity(t.frames[other], frame)
  }

  /** An operation that a key or a foreign key refuses changes nothing. */
  ghost function Step(t: Tables, op: Operation): Tables {
    match op
    case InsertFrame(id, frame) =>
      if id !in t.frames && IdentityFree(t, frame) && (frame.replayOf.Some? ==> frame.replayOf.value in t.frames)
      then t.(frames := t.frames[id := frame]) else t
    case InsertSource(key, source) =>
      if key !in t.sources && key.0 in t.frames then t.(sources := t.sources[key := source]) else t
    case InsertRow(key, row) =>
      if key !in t.rows && key.0 in t.frames then t.(rows := t.rows[key := row]) else t
    case Point(id, target) =>
      if id in t.frames && target in t.frames
      then t.(frames := t.frames[id := t.frames[id].(replayOf := Some(target))]) else t
    case Delete(file, version) => Deleted(t, file, version)
  }

  ghost function Run(t: Tables, ops: seq<Operation>): Tables {
    if ops == [] then t else Step(Run(t, ops[..|ops| - 1]), ops[|ops| - 1])
  }

  /** Files whose rows a deletion takes away exist: whenever a row was stored for a file
      that its frame does not list, deleting for the one file it lists loses the row. */
  lemma OtherRowCanBeLost(file: FileId, other: FileId, frame: StoredFrame, source: FrameSource, row: FrameRow)
      returns (ops: seq<Operation>, k: RowKey)
    requires file != other && frame.replayOf.None?
    ensures k.1 == other && k in Run(Tables(map[], map[], map[]), ops).rows
    ensures k !in Run(Tables(map[], map[], map[]), ops + [Delete(file, frame.version)]).rows
  {
    hide *;
    var id := FrameId(0);
    k := (id, other, 0);
    var a, b, c := InsertFrame(id, frame), InsertSource((id, file), source), InsertRow(k, row);
    var none := Tables(map[], map[], map[]);
    ops := [a, b, c];
    RunPush(none, [], a);
    RunPush(none, [a], b);
    RunPush(none, [a, b], c);
    RunPush(none, ops, Delete(file, frame.version));
    assert [] + [a] == [a] && [a] + [b] == [a, b] && [a, b] + [c] == ops;
    ThreeInserts(id, file, k, frame, source, row);
    RowGoes(id, file, k, frame, source, row);
    DeleteStep(Run(none, ops), file, frame.version);
  }

  /** A frame with one source and one row. */
  function OneFrame(
      id: FrameId, file: FileId, k: RowKey, frame: StoredFrame, source: FrameSource, row: FrameRow): Tables
  {
    Tables(map[id := frame], map[(id, file) := source], map[k := row])
  }

  lemma DeleteStep(t: Tables, file: FileId, version: string)
    ensures Step(t, Delete(file, version)) == Deleted(t, file, version)
  {
    hide Deleted;
  }

  lemma ThreeInserts(
      id: FrameId, file: FileId, k: RowKey, frame: StoredFrame, source: FrameSource, row: FrameRow)
    requires frame.replayOf.None? && k.0 == id
    ensures Step(Step(Step(Tables(map[], map[], map[]), InsertFrame(id, frame)), InsertSource((id, file), source)),
                 InsertRow(k, row))
            == OneFrame(id, file, k, frame, source, row)
    ensures k in OneFrame(id, file, k, frame, source, row).rows
  {
    hide Deleted;
  }

  lemma RowGoes(id: FrameId, file: FileId, k: RowKey, frame: StoredFrame, source: FrameSource, row: FrameRow)
    requires k.0 == id && k.1 != file
    ensures k !in Deleted(OneFrame(id, file, k, frame, source, row), file, frame.version).rows
  {
    OtherRowLostIff(OneFrame(id, file, k, frame, source, row), file, frame.version, k);
  }

  lemma RunPush(t: Tables, ops: seq<Operation>, op: Operation)
    ensures Run(t, ops + [op]) == Step(Run(t, ops), op)
    ensures Run(t, []) == t
  {
    assert (ops + [op])[..|ops|] == ops;
  }

  ghost predicate IdentitiesUnique(t: Tables) {
    forall a, b :: a in t.frames && b in t.frames && a != b ==> !SameIdentity(t.frames[a], t.frames[b])
  }

  lemma DeletedIdentities(t: Tables, file: FileId, version: string)
    requires IdentitiesUnique(t)
    ensures IdentitiesUnique(Deleted(t, file, version))
  {
    hide Gone;
    var d := Deleted(t, file, version);
    forall a, b | a in d.frames && b in d.frames && a != b
      ensures !SameIdentity(d.frames[a], d.frames[b])
    {
      assert !SameIdentity(t.frames[a], t.frames[b]);
    }
  }

  lemma StepKeeps(t: Tables, op: Operation)
    requires Consistent(t) && IdentitiesUnique(t)
    ensures Consistent(Step(t, op)) && IdentitiesUnique(Step(t, op))
  {
    hide Deleted, SameIdentity;
    match op
    case InsertFrame(id, frame) =>
      if Step(t, op) != t {
        InsertKeeps(t, id, frame);
      }
    case InsertSource(key, source) =>
    case InsertRow(key, row) =>
    case Point(id, target) =>
      if Step(t, op) != t {
        PointKeeps(t, id, target);
      }
    case Delete(file, version) =>
      DeletedConsistent(t, file, version);
      DeletedIdentities(t, file, version);
  }

  lemma InsertKeeps(t: Tables, id: FrameId, frame: StoredFrame)
    requires Consistent(t) && IdentitiesUnique(t)
    requires id !in t.frames && IdentityFree(t, frame) && (frame.replayOf.Some? ==> frame.replayOf.value in t.frames)
    ensures Consistent(t.(frames := t.frames[id := frame])) && IdentitiesUnique(t.(frames := t.frames[id := frame]))
  {
  }

  lemma PointKeeps(t: Tables, id: FrameId, target: FrameId)
    requires Consistent(t) && IdentitiesUnique(t)
    requires id in t.frames && target in t.frames
    ensures var u := t.(frames := t.frames[id := t.frames[id].(replayOf := Some(target))]);
            Consistent(u) && IdentitiesUnique(u)
  {
    var u := t.(frames := t.frames[id := t.frames[id].(replayOf := Some(target))]);
    forall a, b | a in u.frames && b in u.frames && a != b
      ensures !SameIdentity(u.frames[a], u.frames[b])
    {
      assert !SameIdentity(t.frames[a], t.frames[b]);
    }
  }

  /** Whatever is inserted, pointed and deleted, in any order: no source, row or replay
      pointer dangles, and no two frames share an identity. */
  lemma {:induction false} EveryRunKeeps(t: Tables, ops: seq<Operation>)
    requires Consistent(t) && IdentitiesUnique(t)
    ensures Consistent(Run(t, ops)) && IdentitiesUnique(Run(t, ops))
  {
    hide Step, Consistent, IdentitiesUnique;
    if ops != [] {
      EveryRunKeeps(t, ops[..|ops| - 1]);
      StepKeeps(Run(t, ops[..|ops| - 1]), ops[|ops| - 1]);
    }
  }

  /** Deletion keeps replay pointers one level deep and every row's provenance. */
  lemma DeletionKeepsProvenance(t: Tables, file: FileId, version: string)
    requires Consistent(t)
    ensures OneLevel(t) ==> OneLevel(Deleted(t, file, version))
    ensures Sourced(t) ==> Sourced(Deleted(t, file, version))
  {
    hide Contributes;
  }

  // ----- pointing a batch at its canonical frames

  /** Each replay of the batch is pointed at, by nobody, and points outside the batch. */
  ghost predicate OneLevelBatch(frames: map<FrameId, StoredFrame>, mapping: seq<(FrameId, FrameId)>) {
    && (forall i :: 0 <= i < |mapping| ==> mapping[i].1 in frames && frames[mapping[i].1].replayOf.None?)
    && (forall i, j :: 0 <= i < |mapping| && 0 <= j < |mapping| ==> mapping[i].0 != mapping[j].1)
    && (forall i, id :: 0 <= i < |mapping| && id in frames ==> frames[id].replayOf != Some(mapping[i].0))
  }

  ghost predicate FlatPointers(frames: map<FrameId, StoredFrame>) {
    forall id :: id in frames && frames[id].replayOf.Some? && frames[id].replayOf.value in frames ==>
      frames[frames[id].replayOf.value].replayOf.None?
  }

  lemma {:induction false} PointedFrame(
      frames: map<FrameId, StoredFrame>, mapping: seq<(FrameId, FrameId)>, id: FrameId)
    ensures Pointed(frames, mapping).Keys == frames.Keys
    ensures id in frames ==>
              Pointed(frames, mapping)[id] == frames[id]
              || exists i ::
                   && 0 <= i < |mapping|
                   && mapping[i].0 == id
                   && Pointed(frames, mapping)[id] == frames[id].(replayOf := Some(mapping[i].1))
  {
    if mapping != [] {
      PointedFrame(frames, mapping[..|mapping| - 1], id);
    }
  }

  /** Pointing replays at frames that are not replays keeps pointers one level deep. */
  lemma PointingStaysFlat(frames: map<FrameId, StoredFrame>, mapping: seq<(FrameId, FrameId)>)
    requires FlatPointers(frames) && OneLevelBatch(frames, mapping)
    ensures FlatPointers(Pointed(frames, mapping))
  {
    hide Pointed;
    var after := Pointed(frames, mapping);
    forall id | id in after && after[id].replayOf.Some? && after[id].replayOf.value in after
      ensures after[after[id].replayOf.value].replayOf.None?
    {
      PointedFrame(frames, mapping, id);
      PointedFrame(frames, mapping, after[id].replayOf.value);
    }
  }

  // ----- a deletion, table by table

  /** The frame was built by this version and lists the file as a source. */
  predicate ListsFile(t: Tables, file: FileId, version: string, id: FrameId) {
    id in t.frames && t.frames[id].version == version && (id, file) in t.sources
  }

  /** It lists no other. */
  ghost predicate ListsOnly(t: Tables, file: FileId, version: string, id: FrameId) {
    ListsFile(t, file, version, id) && forall other :: (id, other) in t.sources ==> other == file
  }

  /** What a deletion takes: frames the file is the only source of, the file's sources of
      all its frames of that version, and the rows of both; and what it changes. */
  lemma DeletionRead(t: Tables, file: FileId, version: string)
    ensures var d := Deleted(t, file, version);
            && (forall id :: id in d.frames <==> id in t.frames && !ListsOnly(t, file, version, id))
            && (forall id :: id in d.frames ==>
                  d.frames[id] == if || t.frames[id].replayOf == None
                                     || !ListsOnly(t, file, version, t.frames[id].replayOf.value)
                                  then t.frames[id] else t.frames[id].(replayOf := None))
            && (forall k :: k in d.sources <==> k in t.sources && !(k.1 == file && ListsFile(t, file, version, k.0)))
            && (forall k :: k in d.rows <==>
                  && k in t.rows && !ListsOnly(t, file, version, k.0)
                  && !(k.1 == file && ListsFile(t, file, version, k.0)))
            && (forall k :: k in d.sources ==> d.sources[k] == t.sources[k])
            && (forall k :: k in d.rows ==> d.rows[k] == t.rows[k])
  {
    forall id
      ensures Contributes(t, file, version, id) <==> ListsFile(t, file, version, id)
      ensures Gone(t, file, version, id) <==> ListsOnly(t, file, version, id)
    {
    }
    hide Contributes, Gone, ListsFile, ListsOnly;
  }
}
