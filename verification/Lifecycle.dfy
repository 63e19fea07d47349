/** The ingestion lifecycle: which moves are allowed, and what every run has visited. */
module Lifecycle {
  datatype Status =
    | DISCOVERED
    | REGISTERED
    | LANDING
    | PROFILING
    | SCHEMA_VALIDATION
    | QUALITY_VALIDATION
    | READY_FOR_NORMALIZATION
    | FRAME_RECONSTRUCTION
    | FRAMES_RECONSTRUCTED
    | NORMALIZING
    | NORMALIZED
    | NORMALIZED_WITH_WARNINGS
    | PARTIAL
    | FAILED
    | COMPLETED
    | DUPLICATE
    | QUARANTINED

  const FAILURE_EXITS := {FAILED, QUARANTINED}

  function NextStates(current: Status): set<Status> {
    match current
    case DISCOVERED => {REGISTERED, DUPLICATE} + FAILURE_EXITS
    case REGISTERED => {LANDING, DUPLICATE} + FAILURE_EXITS
    case LANDING => {PROFILING} + FAILURE_EXITS
    case PROFILING => {SCHEMA_VALIDATION} + FAILURE_EXITS
    case SCHEMA_VALIDATION => {QUALITY_VALIDATION} + FAILURE_EXITS
    case QUALITY_VALIDATION => {READY_FOR_NORMALIZATION, PARTIAL} + FAILURE_EXITS
    case READY_FOR_NORMALIZATION => {FRAME_RECONSTRUCTION, COMPLETED, FAILED}
    case FRAME_RECONSTRUCTION => {FRAMES_RECONSTRUCTED} + FAILURE_EXITS
    case FRAMES_RECONSTRUCTED => {NORMALIZING, NORMALIZED, FRAME_RECONSTRUCTION, COMPLETED, FAILED}
    case NORMALIZING => {NORMALIZED, NORMALIZED_WITH_WARNINGS, COMPLETED} + FAILURE_EXITS
    case NORMALIZED => {NORMALIZING, COMPLETED}
    case NORMALIZED_WITH_WARNINGS => {NORMALIZING, COMPLETED}
    case PARTIAL => {READY_FOR_NORMALIZATION} + FAILURE_EXITS
    case FAILED => {REGISTERED}
    case COMPLETED => {}
    case DUPLICATE => {}
    case QUARANTINED => {}
  }

  predicate CanTransition(current: Status, target: Status) {
    target in NextStates(current)
  }

  predicate IsTerminal(s: Status) {
    NextStates(s) == {}
  }

  ghost predicate Allowed(run: seq<Status>) {
    forall i :: 0 <= i < |run| - 1 ==> CanTransition(run[i], run[i + 1])
  }

  /** A lifecycle: from discovery, by allowed moves only. */
  ghost predicate IsRun(run: seq<Status>) {
    run != [] && run[0] == DISCOVERED && Allowed(run)
  }

  /** `path` can be read off `run` in order. */
  ghost predicate Visits(run: seq<Status>, path: seq<Status>) {
    if path == [] then true
    else if run == [] then false
    else
      var init, last := run[..|run| - 1], run[|run| - 1];
      (path[|path| - 1] == last && Visits(init, path[..|path| - 1])) || Visits(init, path)
  }

  /** The ordered path that ingestion drives. */
  function HappyPath(): seq<Status> {
    [DISCOVERED, REGISTERED, LANDING, PROFILING, SCHEMA_VALIDATION, QUALITY_VALIDATION, READY_FOR_NORMALIZATION]
  }

  /** That path and frame reconstruction after it. */
  function FullPath(): seq<Status> {
    HappyPath() + [FRAME_RECONSTRUCTION, FRAMES_RECONSTRUCTED]
  }

  /** How much of the full path any run standing at a status must have visited. */
  function Depth(s: Status): (n: nat)
    ensures n <= |FullPath()|
  {
    match s
    case DISCOVERED => 1
    case REGISTERED => 2
    case LANDING => 3
    case PROFILING => 4
    case SCHEMA_VALIDATION => 5
    case QUALITY_VALIDATION => 6
    case PARTIAL => 6
    case READY_FOR_NORMALIZATION => 7
    case COMPLETED => 7
    case FRAME_RECONSTRUCTION => 8
    case FRAMES_RECONSTRUCTED => 9
    case NORMALIZING => 9
    case NORMALIZED => 9
    case NORMALIZED_WITH_WARNINGS => 9
    case FAILED => 1
    case DUPLICATE => 1
    case QUARANTINED => 1
  }

  function Milestones(s: Status): seq<Status> {
    FullPath()[..Depth(s)]
  }

  lemma {:induction false} VisitsPrefix(run: seq<Status>, path: seq<Status>, k: nat)
    requires Visits(run, path) && k <= |path|
    ensures Visits(run, path[..k])
    decreases |run|, |path|
  {
    if k == |path| {
      assert path[..k] == path;
    } else if k > 0 {
      var init, last := run[..|run| - 1], run[|run| - 1];
      if path[|path| - 1] == last && Visits(init, path[..|path| - 1]) {
        assert path[..|path| - 1][..k] == path[..k];
        VisitsPrefix(init, path[..|path| - 1], k);
      } else {
        VisitsPrefix(init, path, k);
      }
    }
  }

  lemma VisitsMore(run: seq<Status>, path: seq<Status>, s: Status)
    requires Visits(run, path)
    ensures Visits(run + [s], path) && Visits(run + [s], path + [s])
  {
    assert (run + [s])[..|run|] == run;
    assert (path + [s])[..|path|] == path;
  }

  /** A move goes at most one milestone further, and then to that milestone. */
  lemma DepthStep(a: Status, b: Status)
    requires CanTransition(a, b)
    ensures Depth(b) <= Depth(a) || (Depth(b) == Depth(a) + 1 && FullPath()[Depth(a)] == b)
  {
  }

  lemma MilestonesStep(run: seq<Status>, a: Status, b: Status)
    requires CanTransition(a, b) && Visits(run, Milestones(a))
    ensures Visits(run + [b], Milestones(b))
  {
    hide Depth, FullPath, Visits, CanTransition;
    DepthStep(a, b);
    if Depth(b) <= Depth(a) {
      VisitsPrefix(run, Milestones(a), Depth(b));
      assert Milestones(a)[..Depth(b)] == Milestones(b);
      VisitsMore(run, Milestones(b), b);
    } else {
      assert Milestones(b) == Milestones(a) + [b];
      VisitsMore(run, Milestones(a), b);
    }
  }

  /** Every run has visited the milestones of the status it stands at, in order. */
  lemma {:induction false} RunVisitsMilestones(run: seq<Status>)
    requires IsRun(run)
    ensures Visits(run, Milestones(run[|run| - 1]))
  {
    hide Milestones, CanTransition, Visits;
    if |run| == 1 {
      FirstMilestone();
      assert run == [DISCOVERED];
    } else {
      var init, last := run[..|run| - 1], run[|run| - 1];
      assert CanTransition(run[|run| - 2], run[|run| - 2 + 1]);
      RunVisitsMilestones(init);
      assert run == init + [last];
      MilestonesStep(init, init[|init| - 1], last);
    }
  }

  lemma FirstMilestone()
    ensures Visits([DISCOVERED], Milestones(DISCOVERED))
  {
    assert Milestones(DISCOVERED) == [DISCOVERED];
    assert [DISCOVERED][..0] == [];
  }

  /** No file completes without having been registered, landed, profiled and validated,
      in that order, however often it failed and was driven again. */
  lemma CompletedVisitsHappyPath(run: seq<Status>)
    requires IsRun(run) && run[|run| - 1] == COMPLETED
    ensures Visits(run, HappyPath())
  {
    hide Visits, CanTransition;
    RunVisitsMilestones(run);
    assert Milestones(COMPLETED) == HappyPath();
  }

  /** A file that completes from anywhere but readiness has had its frames
      reconstructed. */
  lemma CompletedVisitsFrames(run: seq<Status>)
    requires IsRun(run) && |run| > 1 && run[|run| - 1] == COMPLETED
    ensures run[|run| - 2] != READY_FOR_NORMALIZATION ==> Visits(run, FullPath())
  {
    hide Visits, FullPath, CanTransition;
    var init := run[..|run| - 1];
    assert CanTransition(run[|run| - 2], run[|run| - 2 + 1]);
    assert run == init + [COMPLETED];
    if init[|init| - 1] != READY_FOR_NORMALIZATION {
      CompletesLater(init);
    }
  }

  lemma CompletesLater(init: seq<Status>)
    requires IsRun(init)
    requires CanTransition(init[|init| - 1], COMPLETED) && init[|init| - 1] != READY_FOR_NORMALIZATION
    ensures Visits(init + [COMPLETED], FullPath())
  {
    hide Visits, FullPath, Milestones, CanTransition;
    RunVisitsMilestones(init);
    FullDepth(init[|init| - 1]);
    VisitsMore(init, FullPath(), COMPLETED);
  }

  lemma FullDepth(s: Status)
    requires CanTransition(s, COMPLETED) && s != READY_FOR_NORMALIZATION
    ensures Milestones(s) == FullPath()
  {
  }

  /** Completing straight from readiness does skip reconstruction. */
  lemma CompletedWithoutFrames() returns (run: seq<Status>)
    ensures IsRun(run) && run[|run| - 1] == COMPLETED && FRAME_RECONSTRUCTION !in run
  {
    run := HappyPath() + [COMPLETED];
  }

  /** The move that leads on towards completion, where there is one. */
  function Toward(s: Status): Status {
    match s
    case DISCOVERED => REGISTERED
    case REGISTERED => LANDING
    case LANDING => PROFILING
    case PROFILING => SCHEMA_VALIDATION
    case SCHEMA_VALIDATION => QUALITY_VALIDATION
    case QUALITY_VALIDATION => READY_FOR_NORMALIZATION
    case PARTIAL => READY_FOR_NORMALIZATION
    case FAILED => REGISTERED
    case FRAME_RECONSTRUCTION => FRAMES_RECONSTRUCTED
    case _ => COMPLETED
  }

  function StepsLeft(s: Status): nat {
    match s
    case DISCOVERED | FAILED => 7
    case REGISTERED => 6
    case LANDING => 5
    case PROFILING => 4
    case SCHEMA_VALIDATION => 3
    case QUALITY_VALIDATION | PARTIAL | FRAME_RECONSTRUCTION => 2
    case COMPLETED => 0
    case _ => 1
  }

  ghost predicate Leads(run: seq<Status>, from: Status, to: Status) {
    run != [] && run[0] == from && run[|run| - 1] == to && Allowed(run)
  }

  /** Completion is within reach of a status exactly when it is not a dead end. */
  lemma CompletableIff(s: Status)
    ensures (exists run :: Leads(run, s, COMPLETED)) <==> s == COMPLETED || !IsTerminal(s)
  {
    if s == COMPLETED {
      assert Leads([COMPLETED], s, COMPLETED);
    } else if IsTerminal(s) {
      forall run | Leads(run, s, COMPLETED)
        ensures |run| > 1 && CanTransition(run[0], run[0 + 1])
      {
      }
    } else {
      var run := WayLeads(s);
    }
  }

  lemma TowardCompletion(s: Status)
    requires !IsTerminal(s)
    ensures CanTransition(s, Toward(s)) && StepsLeft(Toward(s)) < StepsLeft(s)
    ensures Toward(s) == COMPLETED || !IsTerminal(Toward(s))
  {
    if Toward(s) != COMPLETED {
      assert FAILED in NextStates(Toward(s)) || COMPLETED in NextStates(Toward(s));
    }
  }

  lemma {:induction false} WayLeads(s: Status) returns (run: seq<Status>)
    requires s == COMPLETED || !IsTerminal(s)
    ensures Leads(run, s, COMPLETED)
    decreases StepsLeft(s)
  {
    hide CanTransition, IsTerminal, Toward, StepsLeft;
    run := [s];
    if s != COMPLETED {
      TowardCompletion(s);
      var rest := WayLeads(Toward(s));
      run := [s] + rest;
    }
  }

  // ----- the table read the other way

  /** The statuses from which each one is reached. */
  function Origins(target: Status): set<Status> {
    match target
    case DISCOVERED => {}
    case REGISTERED => {DISCOVERED, FAILED}
    case LANDING => {REGISTERED}
    case PROFILING => {LANDING}
    case SCHEMA_VALIDATION => {PROFILING}
    case QUALITY_VALIDATION => {SCHEMA_VALIDATION}
    case READY_FOR_NORMALIZATION => {QUALITY_VALIDATION, PARTIAL}
    case FRAME_RECONSTRUCTION => {READY_FOR_NORMALIZATION, FRAMES_RECONSTRUCTED}
    case FRAMES_RECONSTRUCTED => {FRAME_RECONSTRUCTION}
    case NORMALIZING => {FRAMES_RECONSTRUCTED, NORMALIZED, NORMALIZED_WITH_WARNINGS}
    case NORMALIZED => {FRAMES_RECONSTRUCTED, NORMALIZING}
    case NORMALIZED_WITH_WARNINGS => {NORMALIZING}
    case PARTIAL => {QUALITY_VALIDATION}
    case FAILED => {DISCOVERED, REGISTERED, LANDING, PROFILING, SCHEMA_VALIDATION, QUALITY_VALIDATION,
                    READY_FOR_NORMALIZATION, FRAME_RECONSTRUCTION, FRAMES_RECONSTRUCTED, NORMALIZING, PARTIAL}
    case COMPLETED => {READY_FOR_NORMALIZATION, FRAMES_RECONSTRUCTED, NORMALIZING, NORMALIZED, NORMALIZED_WITH_WARNINGS}
    case DUPLICATE => {DISCOVERED, REGISTERED}
    case QUARANTINED => {DISCOVERED, REGISTERED, LANDING, PROFILING, SCHEMA_VALIDATION, QUALITY_VALIDATION,
                         FRAME_RECONSTRUCTION, NORMALIZING, PARTIAL}
  }

  /** A move is allowed exactly when its target lists its start among its origins. */
  lemma MovesReadBothWays(current: Status, target: Status)
    ensures CanTransition(current, target) <==> current in Origins(target)
  {
  }
}
