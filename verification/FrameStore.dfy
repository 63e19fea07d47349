/** The stored frames: shared frames, their provenance, and deletion for one file. */
module FrameStore {
  import opened FrameModels

  datatype FrameId = FrameId(value: nat)
  datatype FileId = FileId(value: nat)

  /** One stored frame: its identity, its verdict, and the frame it replays if any. */
  datatype StoredFrame = StoredFrame(
    key: GroupKey,
    sequence: nat,
    version: string,
    classification: Classification,
    replayOf: Option<FrameId>)

  datatype FrameSource = FrameSource(firstRow: nat, lastRow: nat, rowCount: nat)

  datatype FrameRow = FrameRow(position: string, occurrence: nat, fingerprint: Digest)

  /** A frame and a file identify a source; with a row number, a provenance row. */
  type SourceKey = (FrameId, FileId)
  type RowKey = (FrameId, FileId, nat)

  datatype Tables = Tables(
    frames: map<FrameId, StoredFrame>,
    sources: map<SourceKey, FrameSource>,
    rows: map<RowKey, FrameRow>)

  /** What the foreign keys guarantee: nothing refers to a frame that is not stored. */
  ghost predicate Consistent(t: Tables) {
    && (forall k :: k in t.sources ==> k.0 in t.frames)
    && (forall k :: k in t.rows ==> k.0 in t.frames)
    && (forall id :: id in t.frames && t.frames[id].replayOf.Some? ==> t.frames[id].replayOf.value in t.frames)
  }

  /** Replays point at frames that are not replays themselves. */
  ghost predicate OneLevel(t: Tables) {
    forall id :: id in t.frames && t.frames[id].replayOf.Some? && t.frames[id].replayOf.value in t.frames ==>
      t.frames[t.frames[id].replayOf.value].replayOf.None?
  }

  /** Every provenance row belongs to a file that its frame lists as a source. */
  ghost predicate Sourced(t: Tables) {
    forall k :: k in t.rows ==> (k.0, k.1) in t.sources
  }

  // ----- what deletion for a file means

  /** `file` is a source of the frame, which was built by this version. */
  predicate Contributes(t: Tables, file: FileId, version: string, id: FrameId) {
    id in t.frames && t.frames[id].version == version && (id, file) in t.sources
  }

  /** The frame has no source but `file`. */
  ghost predicate Gone(t: Tables, file: FileId, version: string, id: FrameId) {
    Contributes(t, file, version, id) && forall other :: (id, other) in t.sources ==> other == file
  }

  ghost function Unlinked(t: Tables, file: FileId, version: string, id: FrameId): StoredFrame
    requires id in t.frames
  {
    var f := t.frames[id];
    if f.replayOf.Some? && Gone(t, file, version, f.replayOf.value) then f.(replayOf := None) else f
  }

  ghost function Deleted(t: Tables, file: FileId, version: string): Tables {
    Tables(
      map id | id in t.frames && !Gone(t, file, version, id) :: Unlinked(t, file, version, id),
      map k | k in t.sources && !(k.1 == file && Contributes(t, file, version, k.0)) :: t.sources[k],
      map k | k in t.rows && !Gone(t, file, version, k.0)
              && !(k.1 == file && Contributes(t, file, version, k.0)) :: t.rows[k])
  }

  // ----- the store

  class FrameRepository {
    var frames: map<FrameId, StoredFrame>
    var sources: map<SourceKey, FrameSource>
    var rows: map<RowKey, FrameRow>

    ghost function Contents(): Tables
      reads this
    {
      Tables(frames, sources, rows)
    }

    ghost predicate Valid()
      reads this
    {
      Consistent(Contents())
    }

    constructor ()
      ensures Valid() && Contents() == Tables(map[], map[], map[])
    {
      frames, sources, rows := map[], map[], map[];
    }

    /** Remove this file's frames for one version; a frame shared with another file
        loses only this file's source and rows. */
    method DeleteForFile(file: FileId, version: string) returns (removed: nat)
      requires Valid()
      modifies this
      ensures Valid()
      ensures Contents() == Deleted(old(Contents()), file, version)
      ensures removed == |old(frames)| - |frames|
    {
      hide Consistent, Deleted, WithoutFrames, WithoutContribution;
      ghost var t := Contents();
      var candidates := Candidates(file, version);
      if candidates == {} {
        NothingToDelete(t, file, version, candidates);
        return 0;
      }
      var shared := Shared(candidates, file);
      var exclusive := candidates - shared;
      ExclusiveAreGone(t, file, version, candidates);
      DropContribution(candidates, file);
      ContributionDropped(t, Contents(), candidates, file);
      if exclusive != {} {
        ghost var before := frames;
        ClearReplayPointers(exclusive);
        ClearedOnlyOneWay(before, frames, exclusive);
        ghost var cleared := Contents();
        DropFrames(exclusive);
        FramesDropped(cleared, Contents(), exclusive);
      }
      DeletionAmountsTo(t, file, version, candidates, exclusive);
      DeletedConsistent(t, file, version);
      removed := |exclusive|;
    }

    /** The frames of this version that name the file as a source. */
    method Candidates(file: FileId, version: string) returns (candidates: set<FrameId>)
      requires Valid()
      ensures forall id :: id in candidates <==> Contributes(Contents(), file, version, id)
    {
      candidates := set k | k in sources && k.1 == file && frames[k.0].version == version :: k.0;
      forall id
        ensures id in candidates <==> Contributes(Contents(), file, version, id)
      {
        if Contributes(Contents(), file, version, id) {
          assert (id, file) in sources;
        }
      }
    }

    /** Those of the candidates that another file refers to as well. */
    method Shared(candidates: set<FrameId>, file: FileId) returns (shared: set<FrameId>)
      ensures shared == SharedOf(Contents(), candidates, file)
    {
      shared := set k | k in sources && k.0 in candidates && k.1 != file :: k.0;
    }

    /** Delete the file's rows and sources of the candidate frames. */
    method DropContribution(candidates: set<FrameId>, file: FileId)
      modifies this`sources, this`rows
      ensures forall k :: k in sources <==> k in old(sources) && !(k.0 in candidates && k.1 == file)
      ensures forall k :: k in sources ==> sources[k] == old(sources)[k]
      ensures forall k :: k in rows <==> k in old(rows) && !(k.0 in candidates && k.1 == file)
      ensures forall k :: k in rows ==> rows[k] == old(rows)[k]
    {
      rows := map k | k in rows && !(k.0 in candidates && k.1 == file) :: rows[k];
      sources := map k | k in sources && !(k.0 in candidates && k.1 == file) :: sources[k];
    }

    /** `UPDATE ... SET replay_of_frame_id = NULL WHERE replay_of_frame_id IN (...)`. */
    method ClearReplayPointers(ids: set<FrameId>)
      modifies this`frames
      ensures frames.Keys == old(frames).Keys
      ensures forall id :: id in frames && frames[id].replayOf.Some? ==>
                frames[id].replayOf.value !in ids && frames[id] == old(frames)[id]
      ensures forall id :: id in frames && frames[id].replayOf.None? ==>
                || frames[id] == old(frames)[id]
                || (PointsInto(old(frames)[id], ids) && frames[id] == old(frames)[id].(replayOf := None))
    {
      frames := map id | id in frames ::
        if PointsInto(frames[id], ids) then frames[id].(replayOf := None) else frames[id];
    }

    /** `DELETE`, with the cascades of the foreign keys. */
    method DropFrames(ids: set<FrameId>)
      modifies this
      ensures forall id :: id in frames <==> id in old(frames) && id !in ids
      ensures forall id :: id in frames ==> frames[id] == old(frames)[id]
      ensures forall k :: k in sources <==> k in old(sources) && k.0 !in ids
      ensures forall k :: k in sources ==> sources[k] == old(sources)[k]
      ensures forall k :: k in rows <==> k in old(rows) && k.0 !in ids
      ensures forall k :: k in rows ==> rows[k] == old(rows)[k]
    {
      frames := frames - ids;
      sources := map k | k in sources && k.0 !in ids :: sources[k];
      rows := map k | k in rows && k.0 !in ids :: rows[k];
    }

    /** Point replays at their canonical frames, one update at a time. A target that is
        not stored is refused by the foreign key, which ends the loop. */
    method SetReplayTargets(mapping: seq<(FrameId, FrameId)>) returns (applied: nat)
      requires Valid()
      modifies this`frames
      ensures Valid()
      ensures applied <= |mapping|
      ensures frames == Pointed(old(frames), mapping[..applied])
      ensures applied < |mapping| ==>
                mapping[applied].0 in old(frames) && mapping[applied].1 !in old(frames)
      ensures forall i :: 0 <= i < applied ==> TargetStored(old(frames), mapping[i])
    {
      hide Consistent, Pointed;
      applied := 0;
      PointedNone(frames, mapping[..0]);
      while applied < |mapping|
        invariant applied <= |mapping|
        invariant Valid()
        invariant frames == Pointed(old(frames), mapping[..applied])
        invariant frames.Keys == old(frames).Keys
        invariant forall i :: 0 <= i < applied ==> TargetStored(old(frames), mapping[i])
      {
        var (id, target) := mapping[applied];
        if id in frames && target !in frames {
          return;
        }
        PointedPush(old(frames), mapping[..applied], mapping[applied]);
        assert mapping[..applied + 1] == mapping[..applied] + [mapping[applied]];
        PointingConsistent(Contents(), id, target);
        if id in frames {
          frames := frames[id := frames[id].(replayOf := Some(target))];
        }
        applied := applied + 1;
      }
    }
  }

  /** The foreign key of an update: its target is stored, if it changes a row at all. */
  predicate TargetStored(frames: map<FrameId, StoredFrame>, pointer: (FrameId, FrameId)) {
    pointer.0 in frames ==> pointer.1 in frames
  }

  lemma PointingConsistent(t: Tables, id: FrameId, target: FrameId)
    requires Consistent(t)
    ensures id in t.frames && target in t.frames ==>
              Consistent(t.(frames := t.frames[id := t.frames[id].(replayOf := Some(target))]))
  {
  }

  lemma PointedNone(frames: map<FrameId, StoredFrame>, mapping: seq<(FrameId, FrameId)>)
    requires mapping == []
    ensures Pointed(frames, mapping) == frames
  {
  }

  predicate PointsInto(frame: StoredFrame, ids: set<FrameId>) {
    frame.replayOf.Some? && frame.replayOf.value in ids
  }

  ghost function PointersCleared(frames: map<FrameId, StoredFrame>, ids: set<FrameId>): map<FrameId, StoredFrame> {
    map id | id in frames ::
      if PointsInto(frames[id], ids) then frames[id].(replayOf := None) else frames[id]
  }

  function Pointed(frames: map<FrameId, StoredFrame>, mapping: seq<(FrameId, FrameId)>): map<FrameId, StoredFrame> {
    if mapping == [] then frames
    else
      var before := Pointed(frames, mapping[..|mapping| - 1]);
      var (id, target) := mapping[|mapping| - 1];
      if id in before then before[id := before[id].(replayOf := Some(target))] else before
  }

  lemma PointedPush(frames: map<FrameId, StoredFrame>, mapping: seq<(FrameId, FrameId)>, last: (FrameId, FrameId))
    ensures Pointed(frames, mapping + [last])
            == var before := Pointed(frames, mapping);
               if last.0 in before then before[last.0 := before[last.0].(replayOf := Some(last.1))] else before
  {
    assert (mapping + [last])[..|mapping|] == mapping;
  }

  // ----- the steps of a deletion

  /** What clearing says frame by frame fixes the whole table. */
  lemma ClearedOnlyOneWay(before: map<FrameId, StoredFrame>, after: map<FrameId, StoredFrame>, ids: set<FrameId>)
    requires after.Keys == before.Keys
    requires forall id :: id in after && after[id].replayOf.Some? ==>
               after[id].replayOf.value !in ids && after[id] == before[id]
    requires forall id :: id in after && after[id].replayOf.None? ==>
               after[id] == before[id] || (PointsInto(before[id], ids) && after[id] == before[id].(replayOf := None))
    ensures after == PointersCleared(before, ids)
  {
  }

  ghost function SharedOf(t: Tables, candidates: set<FrameId>, file: FileId): set<FrameId> {
    set k | k in t.sources && k.0 in candidates && k.1 != file :: k.0
  }

  ghost function WithoutContribution(t: Tables, candidates: set<FrameId>, file: FileId): Tables {
    Tables(
      t.frames,
      map k | k in t.sources && !(k.0 in candidates && k.1 == file) :: t.sources[k],
      map k | k in t.rows && !(k.0 in candidates && k.1 == file) :: t.rows[k])
  }

  ghost function WithoutFrames(t: Tables, ids: set<FrameId>): Tables {
    Tables(
      t.frames - ids,
      map k | k in t.sources && k.0 !in ids :: t.sources[k],
      map k | k in t.rows && k.0 !in ids :: t.rows[k])
  }

  lemma ContributionDropped(t: Tables, after: Tables, candidates: set<FrameId>, file: FileId)
    requires after.frames == t.frames
    requires forall k :: k in after.sources <==> k in t.sources && !(k.0 in candidates && k.1 == file)
    requires forall k :: k in after.sources ==> after.sources[k] == t.sources[k]
    requires forall k :: k in after.rows <==> k in t.rows && !(k.0 in candidates && k.1 == file)
    requires forall k :: k in after.rows ==> after.rows[k] == t.rows[k]
    ensures after == WithoutContribution(t, candidates, file)
  {
    var w := WithoutContribution(t, candidates, file);
    assert after.sources == w.sources && after.rows == w.rows;
  }

  lemma FramesDropped(t: Tables, after: Tables, ids: set<FrameId>)
    requires forall id :: id in after.frames <==> id in t.frames && id !in ids
    requires forall id :: id in after.frames ==> after.frames[id] == t.frames[id]
    requires forall k :: k in after.sources <==> k in t.sources && k.0 !in ids
    requires forall k :: k in after.sources ==> after.sources[k] == t.sources[k]
    requires forall k :: k in after.rows <==> k in t.rows && k.0 !in ids
    requires forall k :: k in after.rows ==> after.rows[k] == t.rows[k]
    ensures after == WithoutFrames(t, ids)
  {
    var w := WithoutFrames(t, ids);
    assert after.frames == w.frames && after.sources == w.sources && after.rows == w.rows;
  }

  lemma ExclusiveAreGone(t: Tables, file: FileId, version: string, candidates: set<FrameId>)
    requires forall id :: id in candidates <==> Contributes(t, file, version, id)
    ensures forall id :: id in candidates - SharedOf(t, candidates, file) <==> Gone(t, file, version, id)
  {
    hide Contributes;
    var shared := SharedOf(t, candidates, file);
    forall id
      ensures id in candidates - shared <==> Gone(t, file, version, id)
    {
      if id in candidates && id !in shared {
        forall other | (id, other) in t.sources
          ensures other == file
        {
          assert (id, other).0 in candidates;
        }
      }
    }
  }

  lemma NothingToDelete(t: Tables, file: FileId, version: string, candidates: set<FrameId>)
    requires forall id :: id in candidates <==> Contributes(t, file, version, id)
    requires candidates == {}
    ensures Deleted(t, file, version) == t
  {
    hide Contributes;
    var d := Deleted(t, file, version);
    assert d.frames == t.frames;
    assert d.sources == t.sources;
    assert d.rows == t.rows;
  }

  ghost function AfterSteps(t: Tables, file: FileId, candidates: set<FrameId>, exclusive: set<FrameId>): Tables {
    var kept := WithoutContribution(t, candidates, file);
    if exclusive == {} then kept
    else WithoutFrames(Tables(PointersCleared(kept.frames, exclusive), kept.sources, kept.rows), exclusive)
  }

  lemma StepFrames(t: Tables, file: FileId, version: string, candidates: set<FrameId>, exclusive: set<FrameId>)
    requires forall id :: id in exclusive <==> Gone(t, file, version, id)
    ensures AfterSteps(t, file, candidates, exclusive).frames == Deleted(t, file, version).frames
    ensures exclusive <= t.frames.Keys
    ensures AfterSteps(t, file, candidates, exclusive).frames.Keys == t.frames.Keys - exclusive
  {
    forall id | id in exclusive
      ensures id in t.frames
    {
      assert Gone(t, file, version, id);
    }
    hide Gone;
    var d, e := AfterSteps(t, file, candidates, exclusive), Deleted(t, file, version);
    assert d.frames.Keys == t.frames.Keys - exclusive == e.frames.Keys;
    assert d.frames == e.frames;
  }

  lemma StepKeys(t: Tables, file: FileId, version: string, candidates: set<FrameId>, exclusive: set<FrameId>)
    requires forall id :: id in candidates <==> Contributes(t, file, version, id)
    requires forall id :: id in exclusive <==> Gone(t, file, version, id)
    ensures AfterSteps(t, file, candidates, exclusive).sources == Deleted(t, file, version).sources
    ensures AfterSteps(t, file, candidates, exclusive).rows == Deleted(t, file, version).rows
  {
    hide Contributes, PointersCleared;
    var d, e := AfterSteps(t, file, candidates, exclusive), Deleted(t, file, version);
    assert d.sources == e.sources;
    assert d.rows == e.rows;
  }

  lemma DeletionAmountsTo(t: Tables, file: FileId, version: string, candidates: set<FrameId>, exclusive: set<FrameId>)
    requires forall id :: id in candidates <==> Contributes(t, file, version, id)
    requires forall id :: id in exclusive <==> Gone(t, file, version, id)
    ensures AfterSteps(t, file, candidates, exclusive) == Deleted(t, file, version)
    ensures |exclusive| == |t.frames| - |Deleted(t, file, version).frames|
  {
    hide AfterSteps, Deleted, Gone, Contributes;
    StepFrames(t, file, version, candidates, exclusive);
    StepKeys(t, file, version, candidates, exclusive);
    assert |t.frames.Keys - exclusive| == |t.frames.Keys| - |exclusive|;
  }

  /** Deletion never leaves a source, a row or a replay pointer behind that refers to a
      frame no longer stored. */
  lemma DeletedConsistent(t: Tables, file: FileId, version: string)
    requires Consistent(t)
    ensures Consistent(Deleted(t, file, version))
  {
    hide Contributes;
    var d := Deleted(t, file, version);
    forall k | k in d.sources
      ensures k.0 in d.frames
    {
      if Gone(t, file, version, k.0) {
        assert (k.0, k.1) in t.sources;
      }
    }
  }
}
