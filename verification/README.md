# Telemetry reconstruction, verified

A Dafny model of the pure pipeline that turns charger telemetry rows into frames,
coverage figures and events, with proofs of what it promises: repetition is
classified and never deleted, coverage comes from unique timestamps and never from
raw rows, and streaming state machines agree with simple batch definitions.

Check the whole project with `dafny verify dfyconfig.toml`.

The modules follow the program:

- `Numerals`, `FieldValues`, `CanonicalSerializer`, `RowTexts`, `ValueFacts`: canonical
  values and the texts that rows and frames are identified by.
- `LogicalKeys`, `Topology`, `TimestampGroups`, `FrameBuilder`, `ReplayDetector`,
  `Diagnostics`, `Reconstruction`: the stages of frame reconstruction. Their laws are
  in `ReplayLaws`, `ReplayInflation`, `Fragments`, `PositionClash`, `Departures`,
  `Collisions` and `Losslessness`; `KeyFacts`, `FrameFacts` and `VerdictFacts` read every
  part of their results off the rows.
- `Cadence`, `Coverage`, `CoverageFacts`, `CoverageLaws`, `FileDay`, `PrimaryFiles`:
  charger-day coverage, intervals, gaps, and the split of a file by local date.
- `AlarmReconstructor`, `AlarmFacts`, `SessionReconstructor`, `SessionTracker`,
  `SessionFacts`, `SessionLaws`: intervals and charging sessions.
- `Ranks`, `Correlation`, `CorrelationLaws`, `AlarmClusters`, `CounterAnalyzer`:
  statistics over exact reals, alarm clustering and cumulative counters.
- `Lifecycle`: the allowed moves of a file through ingestion.
- `HeaderNames`, `HeaderParser`, `HeaderFacts`, `HeaderClashes`: identities of the columns.
- `FrameStore`, `FrameStoreLaws`: deletion of shared frames.
- `FrameModels`, `Instants`, `Rounding`, `Sorting`, `Text`: the value objects and the
  orders and texts everything rests on.

Code that updates things step by step is a method or a class, proved against a
recursive specification function; the laws are then lemmas about that function. A module
named for facts says what each part of a result is in terms of the inputs' own fields,
without the functions that compute it.
Instants are integers (microseconds) unless said otherwise. A fingerprint is modelled
by the text that is hashed, so "equal fingerprints" is "equal texts".

Where the code departs from what its comments say, the model follows the code:

- A candidate is a fragment when it is smaller than frame 0, not than its predecessor
  (`pipelines/frame_reconstruction/frame_builder.py:165`, `:186-188`). The two agree
  exactly under `Fragments.FragmentIsShrinkIff`; frames of three, two and two positions
  tell them apart (`Fragments.FragmentWithoutShrink`).
- A frame with an empty expectation is MALFORMED, since unexpected positions are looked
  at first, so that only overflow is ever AMBIGUOUS
  (`pipelines/frame_reconstruction/frame_builder.py:83-87`,
  `FrameFacts.AmbiguousIffOverflow`).
- Where observed identities and a declared count disagree, the observed ones are kept and
  padded or cut off, not replaced by ordinals
  (`pipelines/frame_reconstruction/topology.py:158-183`, `KeyFacts.LabelsRead`).
- Overflow keeps one row per position; the others are counted as dropped
  (`pipelines/frame_reconstruction/frame_builder.py:124-141`).
- A frame with the payload of an earlier one is no full replay when that payload is a
  strict part of frame 0's, because partial replays are not recorded
  (`pipelines/frame_reconstruction/replay_detector.py:180-198`; exactly
  `ReplayLaws.RepeatIsFullIff`, for instance `Fragments.RepeatedFragmentIsPartial`).
- Field names beside the values do not keep two different rows from sharing a text
  (`pipelines/frame_reconstruction/canonical_serializer.py:156-164`).
- The primary file of a day is the one with the most distinct stamps overall, not in
  that day (`pipelines/ingestion/coverage.py:400-408`), and may trail in the day
  (`PrimaryFiles.PrimaryMayTrail`). Whatever files are stamped from a set of instants,
  it tops the day exactly when those lie all in the day or all outside
  (`PrimaryFiles.LeadersTopDayIff`), as instants rebuilt from stored days do
  (`PrimaryFiles.PrimaryTopsStoredDay`).

Promises that hold only under a condition, each with that condition proved exact:

- Positions are fingerprinted by their text, and `C1/S2/S3` is the text of two
  positions. Losslessness holds for all groups over a set of positions exactly when
  their texts differ or only one frame is allowed (`PositionClash.LosslessIffTextsDiffer`).
- A canonical row is identified by its text among all canonical rows exactly when no
  announcement of a field can be read elsewhere in the two values around it
  (`RowTexts.RowTextExclusiveIff`).
- Losslessness fails for a group beyond the frame limit unless all its rows repeat the
  first at their position (`ReplayLaws.NoObservationLost`).
- Rebuilding a file's stamps from stored offsets loses fractions of a second
  (`FileDay.RebuildRoundTrip`), and so does adding up a day (`CoverageLaws.DayAddsUp`).
- The two collision counts agree exactly when every timestamp that two chargers share
  has a group that departs from its first rows (`Collisions.CollisionCountsAgree`).
- Total gap time falls or stays when a stamp is added, except outside the span of the
  others (`CoverageLaws.GapTimeRisesIff`, with `CoverageLaws.GapTimeCanRise` as a case).
- Canonical numbers merge literals that differ beyond 28 significant digits
  (`Numerals.RoundingKeepsIff`) and fail from ten to the 28th on
  (`Numerals.RenderFailsIffHuge`).
- A text value that spells the null token canonicalises as absent
  (`FieldValues.PresentReadsAbsentIff`).
- A header is identified by its fingerprint, among the headers parsing yields with at
  least as many names, exactly when none of its names can be split at separators into
  names that cleaning would leave as they are (`HeaderClashes.FingerprintExclusiveIff`).
- The alarm scan stalls for a negative window with a minimum count below one
  (`AlarmClusters.ScanProgresses`), so the scan asks for one of the two.
- Deleting a file's frames removes another file's rows that hang on a frame without a
  recorded source (`FrameStoreLaws.OtherRowLostIff`).

## Model

| member | source | states |
|---|---|---|
| Numerals.CanonicalNumberReadsBack | pipelines/frame_reconstruction/canonical_serializer.py:56-86 | Whenever a literal is rendered, the text reads back as the same number the literal denotes after rounding to 28 significant digits. |
| Numerals.SameTextIffSameNumber | pipelines/frame_reconstruction/canonical_serializer.py:56-86 | For literals of at most 28 digits, two canonical texts are equal exactly when the literals denote the same number, whatever their spelling, sign of zero or exponent. |
| Numerals.SameTextIffSameRounded | pipelines/frame_reconstruction/canonical_serializer.py:66-86 | For any literals, equal text exactly when the half-even rounded numbers are the same. |
| Numerals.CanonicalNumberIdempotent | pipelines/frame_reconstruction/canonical_serializer.py:56-86 | Canonicalising a canonical number gives it back unchanged. |
| Numerals.RoundingKeepsIff | pipelines/frame_reconstruction/canonical_serializer.py:78 | The rounding hidden in `normalize()` preserves the number exactly when it has at most 28 significant digits. |
| Numerals.RenderFailsIffHuge | pipelines/frame_reconstruction/canonical_serializer.py:79-81 | Rendering a nonzero literal fails exactly when its rounded magnitude is at least ten to the 28th. |
| Numerals.SameIffNormal | pipelines/frame_reconstruction/canonical_serializer.py:78 | Stripping trailing zeros is a unique normal form: two decimals are the same number exactly when it is the same for both. |
| Numerals.LayoutReadsBack | pipelines/frame_reconstruction/canonical_serializer.py:82-86 | Positional notation loses nothing: reading it gives back the decimal that was laid out. |
| FieldValues.NumericAlikeIff | pipelines/frame_reconstruction/canonical_serializer.py:102-142 | In a numeric or untyped field two present values canonicalise alike exactly when both are the same rounded number, or neither is numeric and their stripped texts are equal. |
| FieldValues.PresentReadsAbsentIff | pipelines/frame_reconstruction/canonical_serializer.py:102-113 | A present value canonicalises like an absent one exactly when its text is the null token itself. |
| FieldValues.CanonicalValueKeptIff | pipelines/frame_reconstruction/canonical_serializer.py:102-151 | Canonicalising a canonical value again keeps it exactly when it is the null token or is not itself a configured spelling of absence. |
| FieldValues.HeldIsFramed | pipelines/frame_reconstruction/canonical_serializer.py:102-151 | A canonical value of any field is never empty and neither starts nor ends with white space. |
| ValueFacts.BooleanRead | pipelines/frame_reconstruction/canonical_serializer.py:144-151 | Six words mean TRUE and six FALSE, in any mix of capitals; every other text is kept. |
| ValueFacts.ValueRead | pipelines/frame_reconstruction/canonical_serializer.py:102-142 | Absent, blank and null-spelled values give the null token; text kinds keep the stripped text, boolean kinds the boolean reading, numeric and untyped ones the number when the text is one. |
| ValueFacts.UndeclaredRead | pipelines/frame_reconstruction/canonical_serializer.py:116-142 | A field without a declared kind is canonicalised as a numeric one is. |
| ValueFacts.LiteralReads | pipelines/frame_reconstruction/canonical_serializer.py:66-77 | Every decimal literal, sign, point and exponent included, reads as the number it denotes. |
| ValueFacts.ReadsLiteral | pipelines/frame_reconstruction/canonical_serializer.py:66-77 | Whatever reads as a number is such a literal. |
| ValueFacts.UnderscoresRemoved | pipelines/frame_reconstruction/canonical_serializer.py:70 | Underscores, and nothing else, are dropped before a literal is read. |
| ValueFacts.RoundedRead | pipelines/frame_reconstruction/canonical_serializer.py:78 | Rounding to 28 digits keeps sign and magnitude, is off by half a unit of the last digit at most, and sends ties to the even neighbour. |
| ValueFacts.RowPartsRead | pipelines/frame_reconstruction/canonical_serializer.py:159-164 | The parts of a row are its included fields in order, each its name, "=" and its value. |
| ValueFacts.TextsSpelled | pipelines/frame_reconstruction/canonical_serializer.py:47-50 | Between the fields of a row stands U+001F, between the positions of a frame, in order, U+001E. |
| ValueFacts.JoinRead | pipelines/frame_reconstruction/canonical_serializer.py:164 | A joined text is its two halves with one separator between them. |
| CanonicalSerializer.CanonicalRow | pipelines/frame_reconstruction/canonical_serializer.py:102-164 | The loop canonicalises the raw value of every field that is not excluded, by its declared kind, and yields the joined `name=value` parts in field order; it fails exactly when decimal arithmetic fails on such a value. |
| RowTexts.IsRowIff | pipelines/frame_reconstruction/canonical_serializer.py:102-164 | The rows the laws below speak of are exactly the lists of canonical values that raw rows yield. |
| RowTexts.RowTextInjective | pipelines/frame_reconstruction/canonical_serializer.py:153-167 | Of two canonical rows, one that is not ambiguous shares its text with the other exactly when every included field has the same canonical value. |
| RowTexts.RowTextExclusiveIff | pipelines/frame_reconstruction/canonical_serializer.py:153-164 | Among canonical rows, one's text excludes all of other values exactly when, for no two neighbouring included fields, separator, name of the second and "=" stand in the first's value between something the first can hold and a non-space, or in the second's value after nothing or a non-space and before something the second can hold. |
| RowTexts.RowTextsClash | pipelines/frame_reconstruction/canonical_serializer.py:156-164 | Against the comment that rows cannot collide: two different canonical rows of a two-field schema with one text. |
| RowTexts.ColumnNamesFree | pipelines/profiling/profiler.py:393 | Column names are canonical header names, which never hold the separator. |
| CanonicalSerializer.NestedFingerprints | pipelines/frame_reconstruction/canonical_serializer.py:169-182 | When one frame's position texts are among the other's, as for any two frames of a group, fingerprints are equal exactly when the maps from text to row digest are, whatever the texts hold; row order in the file does not matter. |
| CanonicalSerializer.UncutFingerprintExclusive | pipelines/frame_reconstruction/canonical_serializer.py:169-182 | Between any two frames: one whose position texts hold no digest followed by the separator shares its fingerprint with no other frame of as many positions or more. |
| CanonicalSerializer.CutTextClashes | pipelines/frame_reconstruction/canonical_serializer.py:169-182 | For any two ordered texts y and z, one position whose text is y, "=", a digest, the separator and z reads as the two positions y and z. |
| CanonicalSerializer.SamePayload | pipelines/frame_reconstruction/canonical_serializer.py:169-182 | Between frames one of whose position sets holds the other, over positions that render differently, equal fingerprints mean equal payloads position by position. |
| CanonicalSerializer.TextReadsBack | pipelines/frame_reconstruction/models.py:119-120 | Two positions whose connector ids do not contain "/S" render alike only when they are the same position. |
| LogicalKeys.Build | pipelines/frame_reconstruction/logical_keys.py:94-218 | One pass over the rows files each under its group with the number of earlier rows at its key as occurrence index, keeps unassigned and undatable rows in source order, and counts groups per position, identities seen and repeated digests. |
| LogicalKeys.CountGroups | pipelines/frame_reconstruction/logical_keys.py:202-205 | The second pass counts, for each position, the groups (not the rows) it appears in. |
| LogicalKeys.AssignedRowsIndexed | pipelines/frame_reconstruction/logical_keys.py:189-201 | In every group row numbers increase and each occurrence index is the count of earlier rows at the same position. |
| LogicalKeys.CleanIdempotent | pipelines/frame_reconstruction/logical_keys.py:221-235 | Cleaning an identity twice changes nothing more. |
| LogicalKeys.DecimalTailIgnored | pipelines/frame_reconstruction/logical_keys.py:221-235 | A run of digits with and without ".0" cleans to the same identity. |
| KeyFacts.CleanRead | pipelines/frame_reconstruction/logical_keys.py:221-235 | An identity is the stripped text, without ".0" exactly when what precedes it is dashes and then digits only. |
| KeyFacts.DispositionRead | pipelines/frame_reconstruction/logical_keys.py:143-202 | A row is undatable exactly without a time; else it is keyed by its charger, or the fallback, and its time, and assigned exactly when charger, connector and SMR are known. |
| KeyFacts.PositionRead | pipelines/frame_reconstruction/logical_keys.py:147-158 | A row stands at its connector and SMR, and at no position when one is missing. |
| KeyFacts.EvidenceRead | pipelines/frame_reconstruction/logical_keys.py:202-218 | Which groups and positions the rows of a file give evidence for, and in how many groups a position stands. |
| KeyFacts.RepeatsRead | pipelines/frame_reconstruction/logical_keys.py:137-141 | The repeated rows are those with a digest that an earlier row has. |
| Topology.PadLabels | pipelines/frame_reconstruction/topology.py:161-167 | The padding loop ends for any observed identities and any declared count. |
| Topology.LabelsExact | pipelines/frame_reconstruction/topology.py:149-183 | A positive declared count gives exactly that many different labels: all observed ones if they fit, else the first of them in order. |
| KeyFacts.LabelsRead | pipelines/frame_reconstruction/topology.py:149-183 | Padding takes the lowest ordinals not yet used; without identities the labels are 1 to the count; a negative count cuts labels off the end. |
| KeyFacts.IdentitiesInOrder | pipelines/frame_reconstruction/topology.py:161-183 | Identities come by number when all are numerals, ties and other identities in dictionary order. |
| KeyFacts.ResolvedRead | pipelines/frame_reconstruction/topology.py:187-275 | The charger's counts win over the defaults, and these over observation; a declared frame expects the full cross product of its labels, an observed one the positions seen in at least the floored share of groups, and it is a full matrix exactly when every observed connector has every observed SMR. |
| Topology.CrossSize | pipelines/frame_reconstruction/topology.py:76-81 | Distinct connectors and SMRs give connectors times SMRs positions. |
| Topology.DeclaredFrameSize | pipelines/frame_reconstruction/topology.py:114-147 | With positive declared counts a frame expects exactly their product of positions. |
| Topology.TopologyIgnoresRepeats | pipelines/frame_reconstruction/topology.py:187-276 | Two files whose rows are the same up to repetition and order (same names and, for assigned rows, same charger, time and position) resolve to the same topology, in every tier, however many rows or times each lists. |
| TimestampGroups.BuildTimestampGroups | pipelines/frame_reconstruction/timestamp_groups.py:63-96 | One group per timestamp holding any row, assigned or not, in chronological order, each with its rows and exact per-position counts. |
| TimestampGroups.CountOccurrences | pipelines/frame_reconstruction/timestamp_groups.py:82-84 | The counting loop gives each observed position its number of rows and mentions no other. |
| TimestampGroups.GroupWellFormed | pipelines/frame_reconstruction/timestamp_groups.py:78-95 | Groups built from keyed rows satisfy the invariant the slicer relies on. |
| KeyFacts.GroupsRead | pipelines/frame_reconstruction/timestamp_groups.py:75-96 | Every group of a file holds exactly the rows keyed to it, assigned and not, with their number, position and digest, and the expected positions; groups come by time and then charger. |
| KeyFacts.TextLeRead | pipelines/frame_reconstruction/timestamp_groups.py:75 | Texts compare as in a dictionary: by the first character in which they differ, a prefix first. |
| FrameBuilder.BuildFrameCandidates | pipelines/frame_reconstruction/frame_builder.py:96-190 | The bucket and slicing loops produce exactly the specified candidates: one per occurrence index with its rows, status, fragment mark and note; one merged ambiguous candidate on overflow; none without rows. |
| FrameBuilder.FillBuckets | pipelines/frame_reconstruction/frame_builder.py:118-120 | Buckets hold each position's rows in order, keyed in order of first appearance. |
| FrameBuilder.TakeSlice | pipelines/frame_reconstruction/frame_builder.py:147-149 | The slice holds the k-th row of exactly the positions with more than k rows. |
| FrameBuilder.MergeOverflow | pipelines/frame_reconstruction/frame_builder.py:124-141 | The overflow branch keeps one row per position, the first, and marks the frame ambiguous. |
| FrameBuilder.SortedColumns | pipelines/frame_reconstruction/frame_builder.py:116-120 | Sorting by occurrence and row number leaves every position's rows in source order. |
| FrameBuilder.StatusMeaning | pipelines/frame_reconstruction/frame_builder.py:70-93 | MALFORMED beyond the expectation, COMPLETE when equal to a non-empty one, SEVERELY_INCOMPLETE exactly when the observed positions are a strict part of it and their share is below the threshold, PARTIAL for the other strict parts. |
| FrameFacts.FramesRead | pipelines/frame_reconstruction/frame_builder.py:124-190 | Frame k of a group within the limit, read off the rows: it holds the row of occurrence k at each position that has one, with status by its positions, fragment mark and note. |
| FrameFacts.FrameCountRead | pipelines/frame_reconstruction/frame_builder.py:129-156 | A group overflows exactly when some row has as many before it at its position as frames are allowed; else its frames are numbered up to the last occurrence, none empty. |
| FrameFacts.OverflowRead | pipelines/frame_reconstruction/frame_builder.py:131-149 | The merged candidate of an overflowing group holds the first row of every position and says how many frames were needed. |
| FrameFacts.AmbiguousIffOverflow | pipelines/frame_reconstruction/frame_builder.py:83-87 | A candidate is AMBIGUOUS exactly when its group overflows; with nothing expected every other frame is MALFORMED. |
| FrameFacts.StatusesNeverMilder | pipelines/frame_reconstruction/frame_builder.py:151-176 | From the first frame that stays within a non-empty expectation on, positions shrink and no status is milder than an earlier one. |
| FrameFacts.OrderRead | pipelines/frame_reconstruction/frame_builder.py:124-127 | A candidate lists each of its positions once, by the number of the group's first row there. |
| FrameFacts.OccupancyRead | pipelines/frame_reconstruction/timestamp_groups.py:99-111 | Occupancy counts rows and positions, names missing and unexpected ones, and gives the greatest and least rows per position; it is even exactly when all positions have as many. |
| FrameBuilder.SliceHoldsOccurrence | pipelines/frame_reconstruction/frame_builder.py:146-149 | Frame k holds exactly the group's rows whose occurrence index is k. |
| Fragments.FragmentMeans | pipelines/frame_reconstruction/frame_builder.py:165-188 | A frame is marked as a fragment exactly when its positions are not those of frame 0, that is, when some position has no more rows than the frame's index. |
| Fragments.FragmentIsShrinkIff | pipelines/frame_reconstruction/frame_builder.py:162-165 | The mark agrees with the documented comparison with the preceding frame exactly when some position has as many rows as the frame's index, or none has fewer. |
| Fragments.ShrinkIsFragment | pipelines/frame_reconstruction/frame_builder.py:162-165 | A frame smaller than its predecessor is always marked. |
| Fragments.FragmentWithoutShrink | pipelines/frame_reconstruction/frame_builder.py:162-188 | A group with frames of three, two and two positions whose third frame is marked. |
| FrameBuilder.SlicesDescend | pipelines/frame_reconstruction/frame_builder.py:146-149 | The position sets of successive frames form a descending chain from all observed positions. |
| FrameBuilder.SliceNumbersAscend | pipelines/frame_reconstruction/frame_builder.py:146-149 | At each position source row numbers strictly increase from frame to frame. |
| FrameBuilder.SlicesOccupied | pipelines/frame_reconstruction/frame_builder.py:122-151 | A slice is occupied exactly when its index is below the implied frame count, so no sequence is skipped. |
| FrameBuilder.SlicesCountEveryRow | pipelines/frame_reconstruction/frame_builder.py:146-149 | The slices together hold as many rows as the group: every row lands in one. |
| ReplayDetector.ClassifyGroup | pipelines/frame_reconstruction/replay_detector.py:89-217 | For candidates in any order, the streaming classifier with its two lookup tables returns the verdicts of the plain definition that searches all earlier verdicts each time and compares with the recorded frame of least sequence; in sequence order, which its documentation names, with the first frame. |
| ReplayDetector.InOrderAgrees | pipelines/frame_reconstruction/replay_detector.py:158-160 | In sequence order the recorded frame of least sequence is always the first one. |
| ReplayDetector.ClassifyNext | pipelines/frame_reconstruction/replay_detector.py:111-215 | One iteration gives the verdict the earlier ones dictate and records a frame in both tables exactly when it can represent a payload. |
| VerdictFacts.VerdictsRead | pipelines/frame_reconstruction/replay_detector.py:111-215 | Each verdict on candidates in any order, read off the frames before it: first UNIQUE, then a full replay of the first original with its fingerprint, else compared row by row with the original of least sequence, with target, differing positions and note. |
| VerdictFacts.IssuesFollow | pipelines/frame_reconstruction/replay_detector.py:118-124 | Exactly which issues a frame carries, from its positions, status and classification. |
| VerdictFacts.GroupVerdictsRead | pipelines/frame_reconstruction/replay_detector.py:85-217 | The same of every frame of a group. |
| ReplayLaws.VerdictsFromPayloads | pipelines/frame_reconstruction/replay_detector.py:111-215 | On builder output every verdict and replay target is determined by the payloads alone. |
| ReplayLaws.ReplayPointersSound | pipelines/frame_reconstruction/replay_detector.py:142-215 | The AMBIGUOUS branch is unreachable; targets are canonical, strictly earlier and one level deep; a full replay names the earliest frame with its payload, a partial one names frame 0 and is a strict part of it. |
| ReplayLaws.CanonicalPayloadsDiffer | pipelines/frame_reconstruction/replay_detector.py:111-215 | No two canonical frames of a group carry the same payload. |
| ReplayLaws.RepeatIsFullIff | pipelines/frame_reconstruction/replay_detector.py:142-198 | A frame that repeats an earlier payload is a full replay exactly when that is the first frame's payload or no part of it, and a partial one otherwise. |
| Fragments.RepeatedFragmentIsPartial | pipelines/frame_reconstruction/replay_detector.py:180-198 | A group whose third frame has the payload of the second and is a partial replay of the first. |
| ReplayLaws.NoObservationLost | pipelines/frame_reconstruction/replay_detector.py:89-217 | Canonical frames keep every (position, row digest) of a group exactly when the group stays within the frame limit or every row repeats the first at its position. |
| PositionClash.LosslessIffTextsDiffer | pipelines/frame_reconstruction/replay_detector.py:66-69 | For any set of positions, severity threshold and frame limit: canonical frames lose no reading of any group within the limit exactly when no two of the positions render to the same text, or the limit allows one frame only. |
| PositionClash.ClashLosesRow | pipelines/frame_reconstruction/replay_detector.py:66-69 | For any two positions that render alike there is a two-frame group whose second frame is taken for a replay and loses a reading. |
| PositionClash.PlainConnectorsReadBack | pipelines/frame_reconstruction/models.py:119-120 | Connector ids without "/S" are enough for positions to render differently. |
| PositionClash.ClashExists | pipelines/frame_reconstruction/models.py:119-120 | Two different positions that do render alike. |
| ReplayInflation.CopyAddsOneReplay | pipelines/frame_reconstruction/replay_detector.py:111-155 | Appending a row-for-row copy of any frame to an evenly occupied group leaves every earlier verdict and target unchanged and adds exactly one frame, a full replay of what the copied frame is or replays; positions that render alike make no difference. |
| Diagnostics.BuildFileMetrics | pipelines/frame_reconstruction/diagnostics.py:142-202 | The aggregation loop leaves every status, class, canonical and collision counter equal to the count over all frames; row counts, distinct timestamps, expected positions and topology basis are those of the pass. |
| Diagnostics.CountsCover | pipelines/frame_reconstruction/diagnostics.py:171-193 | Status counts add up to the number of frames, and so do classification counts. |
| Diagnostics.CountsRead | pipelines/frame_reconstruction/diagnostics.py:185-201 | Every count is the number of frames with that status, or that classification. |
| Diagnostics.CollisionTimestamps | pipelines/frame_reconstruction/reconstruction_service.py:91-96 | The independent list holds, in order and once each, exactly the timestamps with more than one canonical frame. |
| Reconstruction.Reconstruct | pipelines/frame_reconstruction/reconstruction_service.py:99-223 | The whole pass yields the frames of every dated group under the resolved topology with their diagnostic detail, the rows set aside, and metrics for which raw rows equal assigned plus unassigned plus overflow-dropped rows. |
| Losslessness.EachRowInOneFrame | pipelines/frame_reconstruction/reconstruction_service.py:142-180 | Every assigned row of a file is held by exactly one of its frames; none holds it exactly when its group overflows and it is not the first row of its position. |
| Losslessness.EveryReadingKept | pipelines/frame_reconstruction/reconstruction_service.py:142-180 | In a group that stays within the frame limit, or repeats its first rows only, and whose positions render differently, every assigned row's reading is found at its position in a canonical frame of its charger and time among the file's frames. |
| Reconstruction.ReconstructAll | pipelines/frame_reconstruction/reconstruction_service.py:142-180 | The group loop yields all groups' frames in order and the total of rows they hold. |
| Reconstruction.ReconstructGroup | pipelines/frame_reconstruction/reconstruction_service.py:144-180 | One group sliced, classified and turned into frames. |
| Reconstruction.EmitFrames | pipelines/frame_reconstruction/reconstruction_service.py:152-180 | Each verdict becomes one frame; rows assigned counts one row per position held. |
| VerdictFacts.FramesStored | pipelines/frame_reconstruction/reconstruction_service.py:147-173 | Each frame as stored: its rows by number and no others, expected and observed counts, missing and unexpected positions, issues without repeats, an unresolved topology among them, and its detail. |
| Reconstruction.GatherUnassigned | pipelines/frame_reconstruction/reconstruction_service.py:189-191 | The rows set aside are the unassigned ones group by group in order of first appearance, then the undatable ones. |
| Reconstruction.SetAsideHolds | pipelines/frame_reconstruction/reconstruction_service.py:189-191 | A row is set aside exactly when it was not assigned to a group, with its own number and position. |
| Reconstruction.GroupConserves | pipelines/frame_reconstruction/frame_builder.py:96-190 | The frames of a group hold all its rows, less exactly those an overflow drops. |
| Reconstruction.RowConservation | pipelines/frame_reconstruction/reconstruction_service.py:138-200 | For every file, rows assigned, unassigned, undatable and dropped by overflow add up to the raw rows. |
| Collisions.CollisionCountsAgree | pipelines/frame_reconstruction/reconstruction_service.py:91-96 | The metric's collision count never exceeds the list's length, and equals it exactly when every timestamp at which two chargers hold rows also has a group that stays within the frame limit and departs from its first rows. |
| Collisions.TwoChargersDisagree | pipelines/frame_reconstruction/reconstruction_service.py:91-96 | Two chargers with one row each at one time: the list counts a collision and the metric none. |
| Departures.DistinctFrameIff | pipelines/frame_reconstruction/replay_detector.py:111-215 | Some frame of a group is classified distinct exactly when the group stays within the frame limit and, in some later frame, a position reads other than in the first frame under another fingerprint. |
| Departures.DepartsIffNotAllRepeat | pipelines/frame_reconstruction/replay_detector.py:111-215 | Where positions render differently, that is exactly when some row does not repeat the first reading of its position. |
| Collisions.SingleChargerCountsAgree | pipelines/frame_reconstruction/diagnostics.py:184-201 | For a single-charger file the two collision counts are equal. |
| Collisions.GroupFrames | pipelines/frame_reconstruction/replay_detector.py:126-140 | In every group the first frame, and no other, is UNIQUE. |
| Coverage.DetectGaps | pipelines/ingestion/coverage.py:241-272 | The loop reports exactly the consecutive intervals longer than the threshold, with duration, missing estimate and severity. |
| Coverage.CountStamps | pipelines/ingestion/coverage.py:309-310 | Each distinct stamp of a contribution within the day is counted once. |
| Coverage.UnionStamps | pipelines/ingestion/coverage.py:288-310 | After all contributions each stamp of the union carries the number of contributions that supply it. |
| Coverage.EvaluateChargerDay | pipelines/ingestion/coverage.py:275-397 | Numbers and interval statistics are those of the sorted union of stamps in the day; the verdict compares the share of expected samples with both thresholds; overlap, identities, reported duplicates, earliest receipt, mean score and primary file are exact over the contributions. |
| CoverageFacts.DayStampsAre | pipelines/ingestion/coverage.py:309-310 | The day's stamps are those of any contribution between its bounds. |
| CoverageFacts.OverlapReads | pipelines/ingestion/coverage.py:312 | The overlap is the stamps of the day that two contributions list. |
| CoverageFacts.FilesWithRepeats | pipelines/ingestion/coverage.py:302-303 | Duplicate files are the contributions with repeated rows. |
| CoverageFacts.FirstReceiptReads | pipelines/ingestion/coverage.py:387 | The first receipt is the earliest there is. |
| CoverageFacts.MeanReads | pipelines/ingestion/coverage.py:388-390 | The mean score times their number is the sum of scores. |
| CoverageFacts.ExpectedReads | pipelines/ingestion/coverage.py:315 | As many samples are expected as whole intervals fit in the day, at least one. |
| CoverageFacts.SpanReads | pipelines/ingestion/coverage.py:318-331 | First and last stamp bound all of the day's; span, leading and trailing time are the whole seconds between and around them. |
| CoverageFacts.CoveragesRead | pipelines/ingestion/coverage.py:333-336 | The coverages are the capped percentages of span, span less gaps, and samples. |
| CoverageFacts.GapsRead | pipelines/ingestion/coverage.py:250-272 | Every pair of neighbouring stamps further apart than the threshold is a gap, and no other, in order, with its whole seconds, missing samples and severity. |
| CoverageFacts.TotalGapReads | pipelines/ingestion/coverage.py:327 | Total gap time is the sum of the gaps' seconds. |
| CoverageFacts.StatsOfDay | pipelines/ingestion/coverage.py:219-238 | Least, greatest, middle and 95th interval, read off the intervals in ascending order. |
| CoverageFacts.CadenceReads | pipelines/ingestion/coverage.py:340-349 | The cadence is abnormal exactly when the median departs from the expected interval by more than the tolerated share of it. |
| Coverage.PrimaryFile | pipelines/ingestion/coverage.py:400-408 | The loop finds the first identified file with the most distinct stamps, counting all of its stamps and not only the day's. |
| PrimaryFiles.LeadersTopDayIff | pipelines/ingestion/coverage.py:400-408 | For contributions stamped from a set of instants, the primary file always has at least as many stamps of the day as any other, as documented, exactly when the instants lie all in the day or all outside it. |
| PrimaryFiles.PrimaryMayTrail | pipelines/ingestion/coverage.py:400-408 | A primary file with one stamp in the day, against another with two. |
| PrimaryFiles.PrimaryTopsStoredDay | backend/app/services/coverage_service.py:249-270 | Over contributions rebuilt from the days stored for the date, as reconciliation builds them, the primary file has at least as many stamps of the day as any other. |
| Cadence.StatsOrdered | pipelines/ingestion/coverage.py:219-238 | Shortest, median, 95th-percentile and longest interval are positive and in that order for any stamps. |
| Cadence.ExtremesBoundSteps | pipelines/ingestion/coverage.py:219-238 | Over a day's sorted stamps no interval is dropped, and the shortest and longest reported bound every interval and are reached. |
| CoverageLaws.LargestGapIsLongestInterval | pipelines/ingestion/coverage.py:327-338 | A day has a gap exactly when its longest interval is one, and the largest gap is then that interval in whole seconds. |
| CoverageLaws.CoveragesOrdered | pipelines/ingestion/coverage.py:315-336 | Largest gap, total gap and span are in order; gap-adjusted coverage lies between 0 and span coverage, which is at most 100, and equals it exactly when there is no gap time or the cap hides it (for a day of positive length; a negative one covers nothing); sample coverage is 100 exactly from the expected count on. |
| CoverageLaws.MoreFilesNeverLowerCoverage | pipelines/ingestion/coverage.py:309-336 | Adding any contribution never lowers the unique count, sample coverage, gap-adjusted coverage or the completeness verdict, nor, for a day of positive length, span coverage. |
| CoverageLaws.MoreStampsKeepMore | pipelines/ingestion/coverage.py:321-336 | Span minus total gap never falls when stamps are added. |
| CoverageLaws.InsertKeeps | pipelines/ingestion/coverage.py:241-272 | Inserting one stamp anywhere never lowers span minus total gap. |
| CoverageLaws.GapTimeRisesIff | pipelines/ingestion/coverage.py:241-272 | Total gap time itself is not monotone: one more stamp raises it exactly when it lies outside the span of the others at a distance that is a gap of at least a second, and then by that gap. |
| CoverageLaws.ResupplyChangesNothing | pipelines/ingestion/coverage.py:309-313 | Supplying stamps already present changes only the overlap, which gains exactly those stamps. |
| CoverageLaws.OrderChangesNothing | pipelines/ingestion/coverage.py:297-313 | Any permutation of the contributions gives the same union and the same overlap. |
| CoverageLaws.DayAddsUp | pipelines/ingestion/coverage.py:321-331 | Leading, span and trailing seconds equal the day exactly when first and last stamp fall on whole seconds; otherwise truncation loses at most two. |
| CoverageLaws.WholeKeptSecondsBounded | pipelines/ingestion/coverage.py:257-272 | On whole seconds, span minus total gap is at most (unique count - 1 - gap count) thresholds. |
| CoverageLaws.KeptSecondsBounded | pipelines/ingestion/coverage.py:257-272 | For any stamps the same bound holds with one second of slack per gap. |
| CoverageLaws.MissingWithinGaps | pipelines/ingestion/coverage.py:261-269 | (Missing samples plus gap count) times the interval is at most total gap, for any multiplier of at least one (settings demand more than one). |
| CoverageLaws.LongerGapsNoMilder | pipelines/ingestion/coverage.py:102-113 | A longer interval is never judged milder and never misses fewer samples, whatever order the thresholds are in. |
| FileDay.BuildFileDays | pipelines/ingestion/file_day.py:100-170 | One contribution per local date present, in date order, holding that date's distinct stamps and their offsets, its share of the rows, the identities seen, and the profile's duplicate counts when there is no other date; none without stamps. |
| FileDay.DaysRead | pipelines/ingestion/file_day.py:100-170 | Each day, from the profile: the stamps between its midnights, their first and last, the nearest whole share of the rows, and what only a file of one date keeps; days come in order. |
| FileDay.DaysAddUp | pipelines/ingestion/file_day.py:138-160 | Unique counts over the dates add up to the file's distinct stamps; the apportioned rows miss the file's row count by half a row per date at most, and a single date keeps it. |
| FileDay.RebuildRoundTrip | pipelines/ingestion/file_day.py:60-66 | Rebuilding all dates gives back the file's sorted stamps exactly when every stamp falls on a whole local second. |
| FileDay.OffsetRestores | pipelines/ingestion/file_day.py:133-136 | An offset is in [0, 86400) and names the second its stamp fell in. |
| FileDay.OffsetsSorted | pipelines/ingestion/file_day.py:134-136 | A date's offsets never decrease, and two are equal exactly when their stamps share a second. |
| FileDay.DaysPartitionFile | pipelines/ingestion/file_day.py:121-134 | The dates' stamps in date order are the file's stamps in order. |
| FileDay.DayWindowKeepsDate | pipelines/ingestion/coverage.py:209-216 | The day window of a date keeps exactly the stamps filed under that date. |
| FileDay.TimestampsUtc | pipelines/ingestion/file_day.py:60-66 | The i-th rebuilt instant is local midnight plus the i-th offset. |
| AlarmReconstructor.ReconstructAlarms | pipelines/events/alarm_reconstructor.py:77-208 | The streaming machine that pops and re-opens alarms equals the batch form: maximal active runs, folded left to right, merging a run that starts within the debounce of the previous end. |
| AlarmReconstructor.EventsSeparated | pipelines/events/alarm_reconstructor.py:103-206 | Only the last event can be open, and each closed one is more than the debounce before its successor. |
| AlarmReconstructor.DebounceComposes | pipelines/events/alarm_reconstructor.py:106-122 | Debouncing by a small and then a larger time is debouncing once by the larger. |
| AlarmReconstructor.ActiveObservationsCovered | pipelines/events/alarm_reconstructor.py:103-206 | Events never overlap, and every active observation lies in one, for any debounce. |
| AlarmReconstructor.MergedAppend | pipelines/events/alarm_reconstructor.py:103-175 | One more observation changes the batch result exactly as one step of the machine does. |
| AlarmReconstructor.EventFlags | pipelines/events/alarm_reconstructor.py:136-206 | An event is certain exactly when unflagged, open exactly when it has no end, and lasts from its start to its end, or to when it was last active, never below zero. |
| AlarmFacts.EventsRead | pipelines/events/alarm_reconstructor.py:103-206 | Without the batch form: each event starts at an active observation after none, a closed one ends at an inactive one right after an active one, with its state and frame, only the last may stay open at the last observation; no active observation is outside, joined stretches are within the debounce and separate events beyond it; duration, gap flag and confidence follow. |
| AlarmFacts.ObservationsInOrder | pipelines/events/alarm_reconstructor.py:92 | Observations are taken by time and then sequence. |
| SessionTracker.Reconstruct | pipelines/events/session_reconstructor.py:103-341 | The tracker's sessions equal the batch form: the ordered observations cut into segments, each summarised and closed. |
| SessionTracker.Tracker.Observe | pipelines/events/session_reconstructor.py:246-335 | One observation keeps all tracked variables equal to the summary of the run in progress and the closed sessions equal to those of the segments so far. |
| SessionTracker.Tracker.CutIfIdChanged | pipelines/events/session_reconstructor.py:267-274 | A new real id closes the session in progress before the observation is looked at further. |
| SessionTracker.Tracker.Start | pipelines/events/session_reconstructor.py:276-295 | A start sets every variable to the summary of the one-observation run. |
| SessionTracker.Tracker.Accumulate | pipelines/events/session_reconstructor.py:297-329 | Accumulating makes every variable the summary of the run with the observation added. |
| SessionTracker.Tracker.CloseActive | pipelines/events/session_reconstructor.py:136-244 | Closing appends the closed session and restores every variable to its initial value. |
| SessionTracker.Tracker.constructor | pipelines/events/session_reconstructor.py:117-134 | A new tracker tracks no observations. |
| SessionTracker.SummaryAppend | pipelines/events/session_reconstructor.py:297-328 | How each summarised field changes with one more observation. |
| SessionLaws.OrderedIsChronological | pipelines/events/session_reconstructor.py:114-115 | The working order is by time and then sequence. |
| SessionLaws.SessionsPartition | pipelines/events/session_reconstructor.py:246-339 | Sessions claim disjoint contiguous runs, and every observation that indicates a session lies in exactly one. |
| SessionLaws.SessionsStartOnIndicators | pipelines/events/session_reconstructor.py:276-281 | A session starts only on an observation that indicates one. |
| SessionLaws.SessionIdsAgree | pipelines/events/session_reconstructor.py:267-302 | Every real id inside a session is the session's own. |
| SessionLaws.ChargingWindow | pipelines/events/session_reconstructor.py:293-309 | Charging start and end come together, in order, within the session's observations and no later than its end. |
| SessionLaws.SessionsInOrder | pipelines/events/session_reconstructor.py:246-339 | A later session's charging starts no earlier than an earlier session's end. |
| SessionLaws.IdleMeansLocal | pipelines/events/session_reconstructor.py:229-339 | If no session is in progress after a prefix, the sessions of the whole are those of the prefix followed by those of the rest. |
| SessionLaws.ConfidenceFollowsFlags | pipelines/events/session_reconstructor.py:149-193 | A closed session is of low confidence exactly when flagged for a gap or a missing id, of high confidence exactly when unflagged for gap, id and boundary and it charged; it lasts from start to end, never below zero. |
| SessionFacts.SessionsRead | pipelines/events/session_reconstructor.py:136-341 | Every part of every session, from the observations of its run: start, end, charging window, readings, id, stop reason, the greatest consumed energy or else the meter difference unless negative, and exactly which flags it carries. |
| SessionFacts.SegmentsRead | pipelines/events/session_reconstructor.py:246-341 | A session opens on evidence and goes on until the first observation that finishes it, which it keeps, or renames it, which it leaves out; only the last may be cut off by the end of the observations. |
| Ranks.Rank | pipelines/research/signal_statistician.py:234-246 | The nested in-place loops write, for each value, the number of smaller values plus the middle of its ties. |
| Ranks.ShareRank | pipelines/research/signal_statistician.py:242-244 | The innermost loop writes the shared average at the index of every entry of a tie. |
| Ranks.RanksSum | pipelines/research/signal_statistician.py:234-246 | Whatever the ties, the ranks of n values sum to n(n + 1) / 2. |
| CorrelationLaws.RankReads | pipelines/research/signal_statistician.py:234-246 | A rank is the number of smaller samples plus the middle of the equal ones. |
| CorrelationLaws.OppositeRanks | pipelines/research/signal_statistician.py:234-246 | Signals ordered oppositely have ranks that add up to one more than the number of samples. |
| Ranks.RanksOrder | pipelines/research/signal_statistician.py:234-246 | Ranks are equal exactly on equal values and smaller exactly on smaller ones. |
| Ranks.RanksSeeOrderOnly | pipelines/research/signal_statistician.py:230-250 | Signals ordered alike have the same ranks. |
| Correlation.CovarianceBounded | pipelines/research/signal_statistician.py:221-225 | Covariance squared never exceeds the product of the variances. |
| Correlation.Pearson | pipelines/research/signal_statistician.py:218-228 | Any coefficient returned lies in [-1, 1]. |
| CorrelationLaws.PearsonOfPairs | pipelines/research/signal_statistician.py:218-228 | There is a coefficient exactly when neither deviation is below 1e-12, and scaled by deviations and squared count it is the sum, over all pairs of samples, of the products of their differences. |
| CorrelationLaws.PearsonSign | pipelines/research/signal_statistician.py:218-228 | So it is positive, zero or negative as that sum is. |
| CorrelationLaws.TurnedSignalNegates | pipelines/research/signal_statistician.py:218-228 | Negating one signal, or taking it from any constant, negates the coefficient. |
| Correlation.Spearman | pipelines/research/signal_statistician.py:230-250 | So does any rank correlation returned. |
| Correlation.SelfCorrelation | pipelines/research/signal_statistician.py:218-228 | A signal that varies correlates with itself at exactly one. |
| Correlation.MonotoneSignalsCorrelate | pipelines/research/signal_statistician.py:230-250 | Two signals that rise and fall together have rank correlation exactly one. |
| CorrelationLaws.OppositeSignalsCorrelate | pipelines/research/signal_statistician.py:230-250 | Two signals ordered oppositely have rank correlation exactly minus one. |
| AlarmClusters.FindClusters | pipelines/research/pattern_scanner.py:445-533 | The early exits are redundant: the result is the greedy scan of all times that could be read. |
| AlarmClusters.SlideWindow | pipelines/research/pattern_scanner.py:478-531 | The nested loops compute the greedy clusters of the sorted alarms. |
| AlarmClusters.ScanProgresses | pipelines/research/pattern_scanner.py:478-531 | The scan moves on at every index exactly when the window is not negative or the minimum count is positive. |
| AlarmClusters.ClustersDense | pipelines/research/pattern_scanner.py:478-531 | Clusters are disjoint, in order, large enough, within the window, and cannot be extended; each lists the codes of its alarms, with evidence by distinct codes and size. |
| AlarmClusters.DenseRunHit | pipelines/research/pattern_scanner.py:478-531 | Every run of enough alarms within one window starts inside a reported cluster. |
| AlarmClusters.SilentIffSparse | pipelines/research/pattern_scanner.py:478-533 | Nothing is reported exactly when no such run exists. |
| AlarmClusters.ClustersFillWindows | pipelines/research/pattern_scanner.py:480-490 | A cluster is exactly the alarms between its first time and one window later. |
| AlarmClusters.ClustersIgnoreOrder | pipelines/research/pattern_scanner.py:472-531 | Any reordering of the alarms gives the same clusters with the same codes and evidence. |
| HeaderNames.CanonicalIsSnake | pipelines/profiling/header_parser.py:54-83 | Every raw header, at any position, gets a lower-case identifier with single inner underscores that does not begin with a digit. |
| HeaderNames.CanonicalFixed | pipelines/profiling/header_parser.py:54-83 | A text is its own canonical name exactly when it is such an identifier. |
| HeaderNames.CanonicalIdempotent | pipelines/profiling/header_parser.py:54-83 | Canonicalising twice changes nothing. |
| HeaderFacts.FlattenIsOnePass | pipelines/profiling/header_parser.py:71-76 | The five rewriting passes are one: keep letters and digits in lower case, and put an underscore where a word starts after the first. |
| HeaderFacts.CanonicalRead | pipelines/profiling/header_parser.py:54-83 | The canonical name is those words, prefixed if they start with a digit, or made from the position if there are none. |
| HeaderFacts.StripRead | pipelines/profiling/header_parser.py:67 | Stripping removes white space around a text, all of it and nothing else. |
| HeaderFacts.BomRead | pipelines/profiling/header_parser.py:67 | Leading byte order marks go, all of them and nothing else. |
| HeaderParser.ParseHeader | pipelines/profiling/header_parser.py:158-240 | An empty row is an error; any other gives every position its field, the exact duplicate counts, the count of empty names and the joined text that is hashed. |
| HeaderParser.AssignFields | pipelines/profiling/header_parser.py:178-230 | The loop with its occurrence counter and used-name set gives each position the specified field. |
| HeaderParser.NextField | pipelines/profiling/header_parser.py:182-230 | One field from the totals, its occurrence and the names already used. |
| HeaderParser.Disambiguate | pipelines/profiling/header_parser.py:208-212 | The suffix search ends, with the first free suffix from 2 on. |
| HeaderParser.FirstFreeIsLeast | pipelines/profiling/header_parser.py:208-212 | Every smaller suffix was taken. |
| HeaderParser.Clean | pipelines/profiling/header_parser.py:165-173 | Names stripped, the byte-order mark dropped from the first only, empty ones counted. |
| HeaderParser.Count | pipelines/profiling/header_parser.py:175 | A counter over exactly the names present, with their counts. |
| HeaderParser.CanonicalNamesDistinct | pipelines/profiling/header_parser.py:204-219 | No two positions share a canonical name. |
| HeaderParser.CanonicalNamesAreSnake | pipelines/profiling/header_parser.py:187-212 | Numbered and disambiguated names are still identifiers. |
| HeaderParser.CanonicalsIgnoreLaterColumns | pipelines/profiling/header_parser.py:182-219 | Columns appended to a header never change the canonical names of the columns before them. |
| HeaderParser.ReviewIffRenamed | pipelines/profiling/header_parser.py:189-217 | A field is flagged for review exactly when its name differs from the mechanical form of its raw header. |
| HeaderFacts.CleanedRead | pipelines/profiling/header_parser.py:165-173 | Every name is stripped, and the first one of byte order marks too. |
| HeaderFacts.FieldsRead | pipelines/profiling/header_parser.py:182-230 | Each field, from the cleaned names: its occurrence, whether its name repeats, the numbered name of a repeat, the least free suffix on a collision, and the reason to review it. |
| HeaderParser.IdentitiesDiffer | pipelines/profiling/header_parser.py:183-184 | Equal raw names get increasing occurrences, so name and occurrence identify a position. |
| HeaderParser.OccurrencesReached | pipelines/profiling/header_parser.py:183-184 | Each occurrence from one to a name's count is some position's. |
| HeaderParser.FingerprintIdentifies | pipelines/profiling/header_parser.py:147-155 | For names without the separator, equal joined text means equal name lists. |
| HeaderClashes.CleanNamesIff | pipelines/profiling/header_parser.py:165-173 | A name list comes out of cleaning exactly when the first name starts with no byte-order mark and ends with no space, and every other neither starts nor ends with one. |
| HeaderClashes.FingerprintExclusiveIff | pipelines/profiling/header_parser.py:147-155 | Among the headers that parsing yields, one's joined text excludes every other of at least as many names exactly when in none of its names a run of separators has text on both sides, or begins the first name before text. |
| HeaderClashes.SplitNameClashes | pipelines/profiling/header_parser.py:36-39 | When a name can be split so, a longer header that some row cleans to has the same joined text. |
| HeaderClashes.HeadersClash | pipelines/profiling/header_parser.py:147-155 | Against the documented "exactly when": rows of one and of two names with one joined text. |
| FrameStore.FrameRepository.DeleteForFile | backend/app/repositories/frames.py:42-103 | The statements leave exactly the specified tables: the version's frames with this file as only source gone with their rows, its sources and rows of shared frames gone, pointers to vanished frames cleared, all else as before; the result counts the frames removed. |
| FrameStore.FrameRepository.Candidates | backend/app/repositories/frames.py:51-62 | The frames of the version that list the file as a source. |
| FrameStore.FrameRepository.DropContribution | backend/app/repositories/frames.py:78-90 | Only this file's rows and sources of candidate frames go. |
| FrameStore.FrameRepository.DropFrames | backend/app/models/telemetry_frame.py:157-165 | Deleting frames deletes their sources and rows, of whatever file. |
| FrameStore.FrameRepository.SetReplayTargets | backend/app/repositories/frames.py:124-135 | The loop applies updates in order, the last one for a frame winning, up to the first target that is not stored. |
| FrameStore.DeletedConsistent | backend/app/repositories/frames.py:92-102 | After deletion no source, row or replay pointer refers to a frame that is not stored. |
| FrameStoreLaws.DeletionRead | backend/app/repositories/frames.py:42-103 | Which frames, sources and rows a deletion takes, table by table, and which replay pointers it clears. |
| FrameStoreLaws.DeletionsAreOne | backend/app/repositories/frames.py:42-103 | Any sequence of deletions, over files and versions, equals one simultaneous deletion: a frame goes exactly when all its sources were asked for. |
| FrameStoreLaws.OnlyRequestsMatter | backend/app/repositories/frames.py:42-103 | The order and repetition of deletions do not matter. |
| FrameStoreLaws.DeletionsCommute | backend/app/repositories/frames.py:42-103 | A second deletion for the same file changes nothing, and deletions for two files commute. |
| FrameStoreLaws.OtherSourcesKept | backend/app/repositories/frames.py:85-90 | Other files keep all their sources. |
| FrameStoreLaws.OtherRowLostIff | backend/app/repositories/frames.py:78-102 | Another file's row is lost exactly when its frame has this file as only recorded source. |
| FrameStoreLaws.OtherRowCanBeLost | backend/app/repositories/frames.py:78-102 | For any two files there is a run of inserts after which deleting for the one loses a row of the other. |
| FrameStoreLaws.OtherRowsKept | backend/app/repositories/frames.py:78-102 | So with provenance recorded for every row, other files keep all their rows. |
| FrameStoreLaws.OtherVersionsKept | backend/app/repositories/frames.py:92-99 | A frame of another version is unchanged, except that its replay pointer is cleared exactly when it pointed at a frame that goes. |
| FrameStoreLaws.DeletionKeepsProvenance | backend/app/repositories/frames.py:42-103 | Deletion keeps pointers one level deep and every row's source recorded. |
| FrameStoreLaws.EveryRunKeeps | backend/app/models/telemetry_frame.py:81-125 | In every run of inserts, pointings and deletions nothing dangles and frame identities stay unique. |
| FrameStoreLaws.PointingStaysFlat | backend/app/repositories/frames.py:124-135 | Pointing a batch of replays at frames that are not replays keeps pointers one level deep. |
| CounterAnalyzer.Analyze | pipelines/historical/counter_analyzer.py:63-189 | The loop with its running peak reports the typed step of every value read in temporal order, their counts, first and last value and net change. |
| CounterAnalyzer.CountsPartition | pipelines/historical/counter_analyzer.py:97-157 | Every value read after the first is counted as exactly one of increase, unchanged or decrease, and reset candidates are among the decreases. |
| CounterAnalyzer.PeakPush | pipelines/historical/counter_analyzer.py:142-157 | Updating the peak on increases only keeps it the highest value read. |
| CounterAnalyzer.StepsRead | pipelines/historical/counter_analyzer.py:139-170 | Each step, from the readings: change from the one before, and a reset candidate exactly when it falls to less than half of some earlier reading above ten. |
| CounterAnalyzer.ReadingsRead | pipelines/historical/counter_analyzer.py:109-119 | The readings are the values present, in order, with their times. |
| CounterAnalyzer.CountRead | pipelines/historical/counter_analyzer.py:97-157 | Each count is the number of steps of that kind. |
| CounterAnalyzer.ObservationsInOrder | pipelines/historical/counter_analyzer.py:90-95 | Observations are taken by time and then sequence. |
| CounterAnalyzer.DeltasTelescope | pipelines/historical/counter_analyzer.py:139-175 | The deltas add up to the net change. |
| CounterAnalyzer.MonotoneIffNoDecrease | pipelines/historical/counter_analyzer.py:150-157 | No decrease is counted exactly when no value is below any earlier one. |
| Lifecycle.RunVisitsMilestones | pipelines/ingestion/state_machine.py:46-95 | Every lifecycle has visited, in order, the part of the driven path that its status stands for. |
| Lifecycle.MovesReadBothWays | pipelines/ingestion/state_machine.py:46-95 | The allowed moves, read by target: each status is reached from exactly the listed ones. |
| Lifecycle.CompletedVisitsHappyPath | pipelines/ingestion/state_machine.py:46-111 | No lifecycle completes without registration, landing, profiling and both validations in that order, through any number of failures and restarts. |
| Lifecycle.CompletedVisitsFrames | pipelines/ingestion/state_machine.py:57-87 | Completion from anywhere but readiness comes after frame reconstruction. |
| Lifecycle.CompletedWithoutFrames | pipelines/ingestion/state_machine.py:57-63 | A lifecycle that completes straight from readiness without it. |
| Lifecycle.CompletableIff | pipelines/ingestion/state_machine.py:97-100 | Completion can be reached from a status exactly when it is not a dead end. |

## Left out

- SHA-256: digests are compared through the texts they are taken of; row digests are any 64 hex digits.
- The file id carried by every row reference: one file is reconstructed at a time.
- Column lookup and the data frame: rows come with their charger, connector and SMR text and their digest.
- Event-time parsing: rows and alarms come with a time or without one.
- Time zones with changing offsets: a fixed offset is a parameter of the file-day split and of the day window.
- Floating point: coverages, correlations and energies are exact reals, and rounding for display is not modelled.
- White space, digits and case beyond the characters of `Text.IsSpace` and ASCII: text is compared code point by code point.
- Decimal exponent limits: literals so small or so large that the arithmetic context itself overflows or goes subnormal, and infinities and NaNs, which are read as not numeric.
- Python objects other than text as field values: a value is text or absent.
- Reconstruction.Reconstruct: has no failed groups, because no step modelled here can raise; the containment of exceptions per group, wall-clock durations, log lines and the note of the topology are left out.
- The wording of notes and review reasons: each is a constructor with its numbers.
- Coverage.EvaluateChargerDay: leaves out the rounding of percentages and of the mean score, and the detail dictionary; lateness of a day is not modelled.
- CanonicalSerializer.UncutFingerprintExclusive: one way only; between frames of which neither position set holds the other, a text that could be cut clashes or not with the order of its pieces. The classifier compares nested frames only.
- FileDay.BuildFileDays: leaves out the identifiers it copies and the detail dictionary; a share of the rows is an exact quotient, rounded half to even.
- RowTexts.RowTextExclusiveIff: asks that no configured spelling of absence holds the separator U+001F, as none in `data/contracts/missing_values.yaml:14-37` does; so does RowTexts.RowTextInjective.
- RowTexts.RowTextInjective: asks the same of the spellings of absence.
- Charger, code, name, component and severity of an alarm, and the fault mapping: they are copied through.
- The status keyword table and the termination keyword classes of sessions: observations come with their mapped state, and a session keeps the stop reason and final state the class is read from.
- Fields of stored sources and rows that no statement looks at, generated ids, timestamps, and deletion of whole files or chargers.
- A refused foreign key raises and the caller rolls back; the model reports how many updates came before it.
- Percentiles, moments and the filtering of paired samples before correlation; deviations enter as exact square roots.
- Title, confidence and evidence records of an alarm cluster.
- The other pattern checks, quality scoring and rules, keyword classifiers and silver records: tables and thresholds applied in one step.
- Counter values that are NaN, and the charger and counter names copied into each transition.
- Reading header bytes, encodings, and the limit on header size.
- Correlation.Pearson: asks for the exact deviations, since the square root is not computed.
