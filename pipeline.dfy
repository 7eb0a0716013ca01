/** The orchestrator (main_pipeline.py): a database-connection gate, then
    the extract, transform and load phases in order, stopping at the first
    phase that raises.  What each phase does is not modelled here: each step
    is given as the outcome it reports (it finished, or it raised with the
    text of its exception), and so is the connection test.  Clock readings
    are integers (seconds) passed in by the caller. */
module Pipeline {
  import opened Wrappers

  const PipelineName := "Employee Data Pipeline"
  const NotStarted := "Not Started"
  const Running := "Running"
  const Failed := "Failed"
  const Completed := "Completed Successfully"

  /** What a step reports: it returned normally or raised with `str(e)`. */
  datatype Outcome = Succeeded | Raised(message: string)

  /** What `db_config.test_connection()` did: answered, or raised. */
  datatype ConnectionCheck = Answered(ok: bool) | Threw(message: string)

  /** The outcomes of every step the pipeline may run: the two extractors,
      the transformer and the loader. */
  datatype Steps = Steps(
    connection: ConnectionCheck,
    employees: Outcome,
    departments: Outcome,
    transformer: Outcome,
    loader: Outcome)

  datatype Phase = Extract | Transform | Load

  /** The phases in the order `run` lists them. */
  const Phases := [Extract, Transform, Load]

  /** The label each phase puts in front of its error message. */
  function ErrorPrefix(p: Phase): string {
    match p
    case Extract => "Extraction: "
    case Transform => "Transformation: "
    case Load => "Load: "
  }

  /** The dictionary `get_summary` returns. */
  datatype PipelineSummary = PipelineSummary(
    pipelineName: string,
    status: string,
    startTime: Option<int>,
    endTime: Option<int>,
    durationSeconds: Option<int>,
    errors: seq<string>)

  /** `test_connection`: True only when the check answers True; an exception
      is caught and reported as False. */
  function ConnectionPasses(c: ConnectionCheck): (ok: bool)
    ensures ok <==> c == Answered(true)
  {
    match c
    case Answered(b) => b
    case Threw(_) => false
  }

  /** The outcome of `extract_phase`: the department extractor runs only
      after the employee extractor returned, so the first exception wins. */
  function ExtractOutcome(employees: Outcome, departments: Outcome): Outcome {
    if employees.Raised? then employees else departments
  }

  /** What each phase reports, in phase order. */
  function Outcomes(steps: Steps): seq<Outcome> {
    [ExtractOutcome(steps.employees, steps.departments), steps.transformer, steps.loader]
  }

  /** The error a phase appends when it fails, and nothing otherwise. */
  function Recorded(p: Phase, o: Outcome): seq<string> {
    if o.Raised? then [ErrorPrefix(p) + o.message] else []
  }

  /** The index of the first phase that raises, or the number of phases
      when none does. */
  function FirstFailure(outcomes: seq<Outcome>): (k: nat)
    ensures k <= |outcomes|
    ensures forall i :: 0 <= i < k ==> outcomes[i].Succeeded?
    ensures k < |outcomes| ==> outcomes[k].Raised?
  {
    if outcomes == [] then 0
    else if outcomes[0].Raised? then 0
    else 1 + FirstFailure(outcomes[1..])
  }

  // What one `run` does, as functions of the step outcomes.

  /** The phases `run` executes: none when the gate fails, otherwise every
      phase up to and including the first that fails. */
  function RanPhases(steps: Steps): seq<Phase> {
    var k := FirstFailure(Outcomes(steps));
    if !ConnectionPasses(steps.connection) then []
    else if k < |Phases| then Phases[..k + 1]
    else Phases
  }

  function FinalStatus(steps: Steps): string {
    if !ConnectionPasses(steps.connection) || FirstFailure(Outcomes(steps)) < |Phases| then Failed
    else Completed
  }

  /** The errors one `run` appends. */
  function RunErrors(steps: Steps): seq<string> {
    var outcomes := Outcomes(steps);
    var k := FirstFailure(outcomes);
    if !ConnectionPasses(steps.connection) || k == |Phases| then []
    else Recorded(Phases[k], outcomes[k])
  }

  /** `main`'s exit code. */
  function ExitCode(status: string): (code: int)
    ensures code == 0 || code == 1
    ensures code == 0 <==> status == Completed
  {
    if status == Completed then 0 else 1
  }

  class DataPipeline {
    const pipelineName: string
    var startTime: Option<int>
    var endTime: Option<int>
    var status: string
    var errors: seq<string>

    /** A new pipeline has not started, has no errors and no times. */
    constructor ()
      ensures pipelineName == PipelineName && status == NotStarted
      ensures errors == [] && startTime == None && endTime == None
    {
      pipelineName := PipelineName;
      startTime := None;
      endTime := None;
      status := NotStarted;
      errors := [];
    }

    /** `extract_phase`: runs the employee extractor and, only when it
        returned, the department extractor.  Reports whether the department
        extractor ran. */
    method ExtractPhase(employees: Outcome, departments: Outcome) returns (success: bool, departmentsRan: bool)
      modifies this`errors
      ensures departmentsRan <==> employees.Succeeded?
      ensures success <==> employees.Succeeded? && departments.Succeeded?
      ensures errors == old(errors) + Recorded(Extract, ExtractOutcome(employees, departments))
    {
      departmentsRan := false;
      if employees.Raised? {
        errors := errors + [ErrorPrefix(Extract) + employees.message];
        return false, departmentsRan;
      }
      departmentsRan := true;
      if departments.Raised? {
        errors := errors + [ErrorPrefix(Extract) + departments.message];
        return false, departmentsRan;
      }
      success := true;
    }

    /** `transform_phase`. */
    method TransformPhase(transformer: Outcome) returns (success: bool)
      modifies this`errors
      ensures success <==> transformer.Succeeded?
      ensures errors == old(errors) + Recorded(Transform, transformer)
    {
      if transformer.Raised? {
        errors := errors + [ErrorPrefix(Transform) + transformer.message];
        return false;
      }
      success := true;
    }

    /** `load_phase`. */
    method LoadPhase(loader: Outcome) returns (success: bool)
      modifies this`errors
      ensures success <==> loader.Succeeded?
      ensures errors == old(errors) + Recorded(Load, loader)
    {
      if loader.Raised? {
        errors := errors + [ErrorPrefix(Load) + loader.message];
        return false;
      }
      success := true;
    }

    /** The phase function `run` calls for phase `p`. */
    method RunPhase(p: Phase, steps: Steps) returns (success: bool)
      modifies this`errors
      ensures success <==> Outcomes(steps)[PhaseIndex(p)].Succeeded?
      ensures errors == old(errors) + Recorded(p, Outcomes(steps)[PhaseIndex(p)])
    {
      match p
      case Extract =>
        var departmentsRan;
        success, departmentsRan := ExtractPhase(steps.employees, steps.departments);
      case Transform =>
        success := TransformPhase(steps.transformer);
      case Load =>
        success := LoadPhase(steps.loader);
    }

    /** `run`: records the start time and status Running; if the connection
        test fails, the status becomes Failed and nothing else happens (the
        end time is left as it was).  Otherwise the phases run in order until
        one fails, the status is Failed or Completed Successfully, and the
        end time is recorded.  Returns the summary and the phases that ran. */
    method Run(steps: Steps, startClock: int, endClock: int) returns (summary: PipelineSummary, ran: seq<Phase>)
      modifies this`startTime, this`endTime, this`status, this`errors
      ensures startTime == Some(startClock)
      ensures ran == RanPhases(steps)
      ensures status == FinalStatus(steps)
      ensures errors == old(errors) + RunErrors(steps)
      ensures endTime == if ConnectionPasses(steps.connection) then Some(endClock) else old(endTime)
      ensures summary == Summary()
    {
      startTime := Some(startClock);
      status := Running;
      ran := [];
      if !ConnectionPasses(steps.connection) {
        status := Failed;
        summary := GetSummary();
        return;
      }
      ghost var outcomes := Outcomes(steps);
      ghost var before := errors;
      var phases := Phases;
      var broke := false;
      var k := 0;
      while k < |phases|
        invariant 0 <= k <= |phases| && phases == Phases
        invariant k <= FirstFailure(outcomes)
        invariant ran == phases[..k] && status == Running && errors == before
        invariant startTime == Some(startClock) && endTime == old(endTime)
        invariant !broke
      {
        var success := RunPhase(phases[k], steps);
        ran := ran + [phases[k]];
        if !success {
          status := Failed;
          broke := true;
          break;
        }
        k := k + 1;
      }
      if !broke {
        status := Completed;
      } else {
        assert k == FirstFailure(outcomes);
      }
      endTime := Some(endClock);
      summary := GetSummary();
    }

    /** `get_summary`: the duration exists only when both times are set. */
    function Summary(): (s: PipelineSummary)
      reads this
      ensures s.pipelineName == pipelineName && s.status == status && s.errors == errors
      ensures s.startTime == startTime && s.endTime == endTime
      ensures s.durationSeconds.Some? <==> startTime.Some? && endTime.Some?
      ensures s.durationSeconds.Some? ==> s.durationSeconds.value == endTime.value - startTime.value
    {
      var duration := if startTime.Some? && endTime.Some? then Some(endTime.value - startTime.value) else None;
      PipelineSummary(pipelineName, status, startTime, endTime, duration, errors)
    }

    method GetSummary() returns (s: PipelineSummary)
      ensures s == Summary()
    {
      s := Summary();
    }
  }

  function PhaseIndex(p: Phase): (i: nat)
    ensures i < |Phases| && Phases[i] == p
  {
    match p
    case Extract => 0
    case Transform => 1
    case Load => 2
  }

  /** `main`: a fresh pipeline runs once and the exit code is read off the
      final status of the summary it returns.  A run stopped by the
      connection gate never records an end time, so it has no duration. */
  method PipelineMain(steps: Steps, startClock: int, endClock: int) returns (exitCode: int, summary: PipelineSummary)
    ensures exitCode == ExitCode(FinalStatus(steps))
    ensures summary.status == FinalStatus(steps) && summary.errors == RunErrors(steps)
    ensures summary.startTime == Some(startClock)
    ensures summary.durationSeconds.None? <==> !ConnectionPasses(steps.connection)
    ensures summary.durationSeconds.Some? ==> summary.durationSeconds.value == endClock - startClock
  {
    var pipeline := new DataPipeline();
    var ran;
    summary, ran := pipeline.Run(steps, startClock, endClock);
    exitCode := if summary.status == Completed then 0 else 1;
  }

  // Properties of one run.

  /** When the connection test fails or raises, no phase runs, no error is
      recorded and the run fails. */
  lemma ConnectionGate(steps: Steps)
    requires steps.connection != Answered(true)
    ensures RanPhases(steps) == [] && RunErrors(steps) == [] && FinalStatus(steps) == Failed
  {
  }

  /** The phases that ran are a prefix of Extract, Transform, Load; every one
      but the last succeeded, and the last failed unless the run completed. */
  lemma FailFast(steps: Steps)
    ensures var ran := RanPhases(steps);
            && |ran| <= |Phases| && ran == Phases[..|ran|]
            && (forall i :: 0 <= i < |ran| - 1 ==> Outcomes(steps)[i].Succeeded?)
            && (|ran| > 0 && FinalStatus(steps) == Failed ==> Outcomes(steps)[|ran| - 1].Raised?)
  {
  }

  /** A run completes exactly when the connection test passes and every step
      (both extractors, the transformer, the loader) returns normally. */
  lemma CompletedExactly(steps: Steps)
    ensures FinalStatus(steps) == Completed <==>
            && steps.connection == Answered(true)
            && steps.employees.Succeeded? && steps.departments.Succeeded?
            && steps.transformer.Succeeded? && steps.loader.Succeeded?
  {
    var outcomes := Outcomes(steps);
    if FirstFailure(outcomes) == |Phases| {
      assert outcomes[0].Succeeded? && outcomes[1].Succeeded? && outcomes[2].Succeeded?;
    }
  }

  /** A completed run records no error; a failed run that passed the gate
      records exactly one, labelled with the phase that failed. */
  lemma OneErrorPerFailure(steps: Steps)
    ensures FinalStatus(steps) == Completed ==> RunErrors(steps) == []
    ensures FinalStatus(steps) == Failed && ConnectionPasses(steps.connection) ==>
              var ran := RanPhases(steps);
              && |RunErrors(steps)| == 1 && |ran| > 0
              && RunErrors(steps)[0] == ErrorPrefix(ran[|ran| - 1]) + Outcomes(steps)[|ran| - 1].message
  {
  }

  /** `main` exits with 0 exactly when every step succeeds. */
  lemma ExitCodeExactly(steps: Steps)
    ensures ExitCode(FinalStatus(steps)) == 0 <==>
            && steps.connection == Answered(true)
            && steps.employees.Succeeded? && steps.departments.Succeeded?
            && steps.transformer.Succeeded? && steps.loader.Succeeded?
  {
    CompletedExactly(steps);
  }
}
