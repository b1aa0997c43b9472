/**
 * The evaluation engine (`harness/core.py`): the prompt for a task, the
 * dispatch of a model answer to its task family's grader, and the
 * attempt loop of `evaluate_task` with its aggregate metrics (pass@1,
 * pass@k, pass rate, time to fix).
 *
 * The model client, the sandboxed tool runs of the patch grader, the
 * arbiter, regex search and the clock are supplied as functions in an
 * `Env`: the i-th call of `time.time()` reads `clock(i)`.
 */
module Engine {
  import opened Text
  import opened Rubric
  import opened FreeText
  import opened PatchGrader

  /**
   * A task. Free-text tasks carry the contents of their task file in
   * `text`; code tasks carry the contents of `impl.py` and `tests.py`.
   */
  datatype Task = Task(taskId: string, taskType: string, text: string, implText: string, testsText: string)

  // ---------------------------------------------------------------------
  // The prompt (`build_prompt`)
  // ---------------------------------------------------------------------

  const PyIntro: string :=
    "You are asked to refactor code and add tests.\n"
    + "- Preserve behavior unless explicitly stated.\n"
    + "- Improve naming and decomposition.\n"
    + "- Add or expand pytest tests.\n"
    + "- Keep the API stable.\n\n"
    + "Return a unified diff patch relative to the task folder.\n"
    + "Only edit impl.py and tests.py.\n"
    + "Output only the diff, no code fences or extra text.\n\n"
    + "impl.py:\n"
    + "```python\n"
  const PyMiddle: string := "\n```\n\ntests.py:\n```python\n"
  const PyOutro: string := "\n```\n"

  predicate IsFreeTextType(taskType: string)
  {
    taskType in {"md", "synth", "lean"}
  }

  /** The raw task text for a free-text task; otherwise the refactoring instructions around both sources. */
  function BuildPrompt(task: Task): string
  {
    if IsFreeTextType(task.taskType) then task.text
    else PyIntro + task.implText + PyMiddle + task.testsText + PyOutro
  }

  /**
   * A free-text prompt is the task text unchanged; a code prompt opens
   * with the instructions and shows `impl.py` and then `tests.py`, each
   * inside its own fenced block.
   */
  lemma PromptOfTask(task: Task)
    ensures IsFreeTextType(task.taskType) ==> BuildPrompt(task) == task.text
    ensures !IsFreeTextType(task.taskType) ==>
      var p := BuildPrompt(task);
      && StartsWith(p, PyIntro)
      && OccursAt(p, task.implText, |PyIntro|)
      && OccursAt(p, PyMiddle, |PyIntro| + |task.implText|)
      && OccursAt(p, task.testsText, |PyIntro| + |task.implText| + |PyMiddle|)
      && EndsWith(p, PyOutro)
      && |p| == |PyIntro| + |task.implText| + |PyMiddle| + |task.testsText| + |PyOutro|
  {
    if !IsFreeTextType(task.taskType) {
      FiveParts(PyIntro, task.implText, PyMiddle, task.testsText, PyOutro);
    }
  }

  /** Where each of five concatenated strings sits in the result. */
  lemma FiveParts(a: string, b: string, c: string, d: string, e: string)
    ensures var p := a + b + c + d + e;
      && StartsWith(p, a)
      && OccursAt(p, b, |a|)
      && OccursAt(p, c, |a| + |b|)
      && OccursAt(p, d, |a| + |b| + |c|)
      && EndsWith(p, e)
      && |p| == |a| + |b| + |c| + |d| + |e|
  {
    var p := a + b + c + d + e;
    var i := |a|;
    var m := i + |b|;
    var t := m + |c|;
    assert p[..i] == a;
    assert p[i..m] == b;
    assert p[m..t] == c;
    assert p[t..t + |d|] == d;
    assert p[|p| - |e|..] == e;
  }

  datatype GenOutcome = Generated(text: string) | Raised(typeName: string, message: string)

  datatype Env = Env(
    generate: (nat, string) -> GenOutcome,  // the client's answer to the prompt in attempt k
    tools: (nat, string) -> ToolRuns,       // the sandboxed tool runs on the patch of attempt k
    clock: nat -> real,                     // the i-th reading of the wall clock
    arbiter: Option<Arbiter>,
    search: RegexSearch)

  datatype Config = Config(modelName: string, maxTries: int, minCoverage: real, continueOnError: bool)

  ghost predicate NonDecreasing(clock: nat -> real)
  {
    forall i: nat, j: nat :: i <= j ==> clock(i) <= clock(j)
  }

  // ---------------------------------------------------------------------
  // Dispatch to the graders
  // ---------------------------------------------------------------------

  datatype Grade = PyGrade(py: PatchGrade) | TextGrade(text: FreeTextGrade)
  {
    predicate Passed()
    {
      if PyGrade? then py.Passed() else text.passed
    }
  }

  /** The free-text grader of a task type: "md" and "lean" have their own, every other type goes to synth. */
  function TextGrader(task: Task, output: string, env: Env): GraderOutcome
  {
    if task.taskType == "md" then GradeMd(task.text, output, env.arbiter, env.search)
    else if task.taskType == "lean" then GradeLean(task.text, output, env.arbiter, env.search)
    else GradeSynth(task.text, output, env.arbiter, env.search)
  }

  /**
   * "py" goes to the patch grader, every other type to its free-text grader;
   * nothing catches the exception a free-text grader lets out of the arbiter.
   */
  function GradeOutput(task: Task, output: string, runs: ToolRuns, env: Env, minCoverage: real): Outcome<Grade>
  {
    if task.taskType == "py" then Returned(PyGrade(GradePatch(output, runs, minCoverage)))
    else
      match TextGrader(task, output, env)
      case Graded(g) => Returned(TextGrade(g))
      case GraderRaised(t, m) => Propagated(t, m)
  }

  /**
   * Grading raises exactly for a free-text task whose arbiter raises, with
   * the arbiter's exception; otherwise the grade is the family grader's,
   * and it passes as that grader's verdict does.
   */
  lemma DispatchByType(task: Task, output: string, runs: ToolRuns, env: Env, minCoverage: real)
    ensures var o := GradeOutput(task, output, runs, env, minCoverage);
      && (o.Propagated? <==> task.taskType != "py" && ArbiterRaises(env.arbiter, task.text, output))
      && (o.Propagated? ==> ArbiterReply(env.arbiter, task.text, output) == Some(ReplyRaised(o.typeName, o.message)))
      && (o.Returned? ==> (task.taskType == "py" <==> o.value.PyGrade?))
      && (task.taskType == "py" ==> o.Returned? && o.value.Passed() == GradePatch(output, runs, minCoverage).Passed())
      && (task.taskType == "md" && o.Returned? ==>
            GradeMd(task.text, output, env.arbiter, env.search).Graded?
            && o.value.Passed() == GradeMd(task.text, output, env.arbiter, env.search).grade.passed)
      && (task.taskType == "lean" && o.Returned? ==>
            GradeLean(task.text, output, env.arbiter, env.search).Graded?
            && o.value.Passed() == GradeLean(task.text, output, env.arbiter, env.search).grade.passed)
      && (task.taskType !in {"py", "md", "lean"} && o.Returned? ==>
            GradeSynth(task.text, output, env.arbiter, env.search).Graded?
            && o.value.Passed() == GradeSynth(task.text, output, env.arbiter, env.search).grade.passed)
  {
    if task.taskType == "md" {
      GradeMdSpec(task.text, output, env.arbiter, env.search);
    } else if task.taskType == "lean" {
      GradeLeanSpec(task.text, output, env.arbiter, env.search);
    } else if task.taskType != "py" {
      GradeSynthSpec(task.text, output, env.arbiter, env.search);
    }
  }

  // ---------------------------------------------------------------------
  // One attempt
  // ---------------------------------------------------------------------

  datatype AttemptRecord = AttemptRecord(
    attempt: nat,
    passed: bool,
    details: Grade,
    outputChars: nat,
    modelError: Option<string>,
    elapsedSec: real)

  /** The answer graded: the generated text, or "" when generation raised. */
  function AnswerOf(gen: GenOutcome): string
  {
    if gen.Raised? then "" else gen.text
  }

  /** The recorded model error, `"<exception type>: <message>"`. */
  function ModelErrorOf(gen: GenOutcome): Option<string>
  {
    if gen.Raised? then Some(gen.typeName + ": " + gen.message) else None
  }

  /** How an attempt ends: recorded (with the clock reading at its end), or by a propagating exception. */
  datatype Try = Made(rec: AttemptRecord, end: real) | Failed(typeName: string, message: string)

  /**
   * Attempt number i + 1: it reads the clock at 2i + 1 before generating
   * and at 2i + 2 after grading.  An exception from generation is caught
   * only with `continue_on_error`; one from grading never is.
   */
  function TryOf(task: Task, env: Env, cfg: Config, i: nat): Try
  {
    var gen := env.generate(i + 1, BuildPrompt(task));
    if gen.Raised? && !cfg.continueOnError then Failed(gen.typeName, gen.message)
    else
      match GradeOutput(task, AnswerOf(gen), env.tools(i + 1, AnswerOf(gen)), env, cfg.minCoverage)
      case Propagated(t, m) => Failed(t, m)
      case Returned(grade) =>
        Made(AttemptRecord(i + 1, grade.Passed(), grade, |AnswerOf(gen)|, ModelErrorOf(gen), env.clock(2 * i + 2) - env.clock(2 * i + 1)),
             env.clock(2 * i + 2))
  }

  function TriesOf(task: Task, env: Env, cfg: Config): nat -> Try
  {
    (i: nat) => TryOf(task, env, cfg, i)
  }

  /**
   * `tries` lists how the engine's attempts end. The fact is only brought
   * into play where an attempt's definition is spelled out, which keeps the
   * graders out of the loop's proof.
   */
  ghost predicate Produces(task: Task, env: Env, cfg: Config, tries: nat -> Try)
  {
    forall i: nat {:trigger TryOf(task, env, cfg, i)} :: tries(i) == TryOf(task, env, cfg, i)
  }

  lemma EngineProduces(task: Task, env: Env, cfg: Config)
    ensures Produces(task, env, cfg, TriesOf(task, env, cfg))
  {
    forall i: nat ensures TriesOf(task, env, cfg)(i) == TryOf(task, env, cfg, i) {
    }
  }

  // ---------------------------------------------------------------------
  // The attempt accounting, as a reference definition over the attempts' outcomes
  // ---------------------------------------------------------------------

  /** A computation that returns a value or lets an exception propagate. */
  datatype Outcome<T> = Returned(value: T) | Propagated(typeName: string, message: string)

  /** The loop variables of `evaluate_task`. */
  datatype Tally = Tally(
    attempts: seq<AttemptRecord>,
    passCount: nat,
    firstPassTime: Option<real>,
    firstFailureTime: Option<real>)

  /** A recorded attempt: append it, count a pass, and set the first pass or failure time if unset. */
  function Record(tally: Tally, rec: AttemptRecord, end: real): Tally
  {
    Tally(
      tally.attempts + [rec],
      if rec.passed then tally.passCount + 1 else tally.passCount,
      if rec.passed && tally.firstPassTime.None? then Some(end) else tally.firstPassTime,
      if !rec.passed && tally.firstFailureTime.None? then Some(end) else tally.firstFailureTime)
  }

  /** The first n attempts in order; `tries(i)` is how attempt i + 1 ends. */
  function Run(tries: nat -> Try, n: nat): Outcome<Tally>
  {
    if n == 0 then Returned(Tally([], 0, None, None))
    else
      match Run(tries, n - 1)
      case Propagated(t, m) => Propagated(t, m)
      case Returned(tally) =>
        match tries(n - 1)
        case Failed(t, m) => Propagated(t, m)
        case Made(rec, end) => Returned(Record(tally, rec, end))
  }

  /** The number of loop iterations of `range(1, max_tries + 1)`. */
  function Tries(cfg: Config): nat
  {
    if cfg.maxTries > 0 then cfg.maxTries else 0
  }

  datatype TaskResult = TaskResult(
    taskId: string,
    taskType: string,
    model: string,
    attempts: seq<AttemptRecord>,
    passAt1: bool,
    passAtK: bool,
    passRate: real,
    attemptsTotal: int,
    timeToFix: Option<real>,
    elapsedSec: real)

  /** The aggregate metrics after the loop; the run ends at clock reading 2n + 1. */
  function Summarize(taskId: string, taskType: string, cfg: Config, clock: nat -> real, tally: Tally): TaskResult
  {
    var passAt1 := |tally.attempts| > 0 && tally.attempts[0].passed;
    TaskResult(
      taskId, taskType, cfg.modelName, tally.attempts, passAt1, tally.passCount > 0,
      if cfg.maxTries != 0 then tally.passCount as real / cfg.maxTries as real else 0.0,
      cfg.maxTries,
      if passAt1 then Some(0.0)
      else if tally.firstPassTime.Some? && tally.firstFailureTime.Some? then
        Some(tally.firstPassTime.value - tally.firstFailureTime.value)
      else None,
      clock(2 * Tries(cfg) + 1) - clock(0))
  }

  /** `evaluate_task` for given attempt outcomes. */
  function Evaluation(taskId: string, taskType: string, cfg: Config, clock: nat -> real, tries: nat -> Try): Outcome<TaskResult>
  {
    match Run(tries, Tries(cfg))
    case Propagated(t, m) => Propagated(t, m)
    case Returned(tally) => Returned(Summarize(taskId, taskType, cfg, clock, tally))
  }

  function EvaluateTaskSpec(task: Task, env: Env, cfg: Config): Outcome<TaskResult>
  {
    Evaluation(task.taskId, task.taskType, cfg, env.clock, TriesOf(task, env, cfg))
  }

  // ---------------------------------------------------------------------
  // The attempt loop (`evaluate_task`)
  // ---------------------------------------------------------------------

  /**
   * The loop of `evaluate_task` over how its attempts end (`tries(i)` for
   * attempt i + 1), with the metrics computed after it.
   */
  method AttemptLoop(taskId: string, taskType: string, cfg: Config, clock: nat -> real, tries: nat -> Try)
    returns (r: Outcome<TaskResult>)
    ensures r == Evaluation(taskId, taskType, cfg, clock, tries)
  {
    var attempts: seq<AttemptRecord> := [];
    var firstFailureTime: Option<real> := None;
    var firstPassTime: Option<real> := None;
    var passCount: nat := 0;
    var n := Tries(cfg);
    var attempt := 1;
    var failure: Option<Try> := None;
    while attempt <= n && failure.None?
      invariant 1 <= attempt <= n + 1
      invariant failure.None? ==>
        Run(tries, attempt - 1) == Returned(Tally(attempts, passCount, firstPassTime, firstFailureTime))
      invariant failure.Some? ==>
        && failure.value.Failed? && attempt >= 2
        && Run(tries, attempt - 1) == Propagated(failure.value.typeName, failure.value.message)
    {
      var t := tries(attempt - 1);
      RunStep(tries, attempt - 1, t);
      if t.Failed? {
        failure := Some(t);
      } else {
        if t.rec.passed {
          passCount := passCount + 1;
          if firstPassTime.None? {
            firstPassTime := Some(t.end);
          }
        } else if firstFailureTime.None? {
          firstFailureTime := Some(t.end);
        }
        attempts := attempts + [t.rec];
      }
      attempt := attempt + 1;
    }
    if failure.Some? {
      RunPersists(tries, attempt - 1, n);
      r := Propagated(failure.value.typeName, failure.value.message);
    } else {
      var startTime := clock(0);
      var endTime := clock(2 * Tries(cfg) + 1);
      var passAt1 := |attempts| > 0 && attempts[0].passed;
      var passRate := if cfg.maxTries != 0 then passCount as real / cfg.maxTries as real else 0.0;
      var timeToFix: Option<real> := None;
      if passAt1 {
        timeToFix := Some(0.0);
      } else if firstPassTime.Some? && firstFailureTime.Some? {
        timeToFix := Some(firstPassTime.value - firstFailureTime.value);
      }
      r := Returned(TaskResult(taskId, taskType, cfg.modelName, attempts, passAt1, passCount > 0,
                               passRate, cfg.maxTries, timeToFix, endTime - startTime));
    }
  }

  /** `evaluate_task`: the attempt loop over the engine's own attempts. */
  method EvaluateTask(task: Task, env: Env, cfg: Config) returns (r: Outcome<TaskResult>)
    ensures r == EvaluateTaskSpec(task, env, cfg)
  {
    r := AttemptLoop(task.taskId, task.taskType, cfg, env.clock, TriesOf(task, env, cfg));
  }

  /** One more attempt on top of k attempts that returned. */
  lemma RunStep(tries: nat -> Try, k: nat, t: Try)
    requires tries(k) == t
    ensures Run(tries, k).Returned? && t.Failed? ==> Run(tries, k + 1) == Propagated(t.typeName, t.message)
    ensures Run(tries, k).Returned? && t.Made? ==> Run(tries, k + 1) == Returned(Record(Run(tries, k).value, t.rec, t.end))
  {
  }

  // ---------------------------------------------------------------------
  // Properties of the accounting, for any attempt outcomes
  // ---------------------------------------------------------------------

  /** Once an exception propagates out of an attempt, no later attempt runs. */
  lemma {:induction false} RunPersists(tries: nat -> Try, k: nat, n: nat)
    requires k <= n && Run(tries, k).Propagated?
    ensures Run(tries, n) == Run(tries, k)
    decreases n
  {
    if n > k {
      RunPersists(tries, k, n - 1);
    }
  }

  /** The index of the first record whose pass flag is `passed`. */
  function FirstWith(rs: seq<AttemptRecord>, passed: bool): (r: Option<nat>)
    ensures r.Some? ==> r.value < |rs| && rs[r.value].passed == passed
    ensures r.Some? ==> forall j :: 0 <= j < r.value ==> rs[j].passed != passed
    ensures r.None? ==> forall j :: 0 <= j < |rs| ==> rs[j].passed != passed
  {
    if rs == [] then None
    else
      match FirstWith(rs[..|rs| - 1], passed)
      case Some(i) => Some(i)
      case None => if rs[|rs| - 1].passed == passed then Some(|rs| - 1) else None
  }

  lemma FirstWithAppend(rs: seq<AttemptRecord>, rec: AttemptRecord, passed: bool)
    ensures FirstWith(rs + [rec], passed) ==
      if FirstWith(rs, passed).Some? then FirstWith(rs, passed)
      else if rec.passed == passed then Some(|rs|) else None
  {
    assert (rs + [rec])[..|rs|] == rs;
  }

  /** The number of passing records. */
  function CountPassed(rs: seq<AttemptRecord>): nat
  {
    if rs == [] then 0
    else CountPassed(rs[..|rs| - 1]) + (if rs[|rs| - 1].passed then 1 else 0)
  }

  lemma {:induction false} CountPassedBounds(rs: seq<AttemptRecord>)
    ensures CountPassed(rs) <= |rs|
    ensures CountPassed(rs) > 0 <==> exists j :: 0 <= j < |rs| && rs[j].passed
  {
    if rs != [] {
      var front := rs[..|rs| - 1];
      CountPassedBounds(front);
      if CountPassed(rs) > 0 && !rs[|rs| - 1].passed {
        var j :| 0 <= j < |front| && front[j].passed;
        assert rs[j].passed;
      }
      if exists j :: 0 <= j < |rs| && rs[j].passed {
        var j :| 0 <= j < |rs| && rs[j].passed;
        if j < |front| {
          assert front[j].passed;
        }
      }
    }
  }

  /** After n attempts without a propagated exception the records are those of attempts 1..n in order. */
  lemma {:induction false} RunRecords(tries: nat -> Try, n: nat)
    requires Run(tries, n).Returned?
    ensures |Run(tries, n).value.attempts| == n
    ensures forall i :: 0 <= i < n ==> tries(i).Made? && Run(tries, n).value.attempts[i] == tries(i).rec
  {
    if n > 0 {
      RunRecords(tries, n - 1);
      var t0 := Run(tries, n - 1).value;
      assert Run(tries, n).value.attempts == t0.attempts + [tries(n - 1).rec];
    }
  }

  lemma {:induction false} RunLength(tries: nat -> Try, n: nat)
    requires Run(tries, n).Returned?
    ensures |Run(tries, n).value.attempts| == n
  {
    if n > 0 {
      RunLength(tries, n - 1);
    }
  }

  /** The pass count counts the passing records. */
  lemma {:induction false} RunCount(tries: nat -> Try, n: nat)
    requires Run(tries, n).Returned?
    ensures Run(tries, n).value.passCount == CountPassed(Run(tries, n).value.attempts)
  {
    if n > 0 {
      RunCount(tries, n - 1);
      var t0 := Run(tries, n - 1).value;
      var rs := Run(tries, n).value.attempts;
      assert rs == t0.attempts + [tries(n - 1).rec];
      assert rs[..|rs| - 1] == t0.attempts;
    }
  }

  /** The end time of the first attempt whose pass flag is `passed`. */
  function EndOfFirst(tries: nat -> Try, rs: seq<AttemptRecord>, passed: bool): Option<real>
  {
    match FirstWith(rs, passed)
    case None => None
    case Some(i) => if tries(i).Made? then Some(tries(i).end) else None
  }

  /** The first-pass time (`passed`) or the first-failure time (`!passed`) of a tally. */
  function FirstTime(tally: Tally, passed: bool): Option<real>
  {
    if passed then tally.firstPassTime else tally.firstFailureTime
  }

  /**
   * The first-pass and first-failure times are the end times of the first
   * passing and the first failing attempt: each is set once and then kept.
   */
  lemma {:induction false} RunFirstTimes(tries: nat -> Try, n: nat, passed: bool)
    requires Run(tries, n).Returned?
    ensures FirstTime(Run(tries, n).value, passed) == EndOfFirst(tries, Run(tries, n).value.attempts, passed)
  {
    if n > 0 {
      RunFirstTimes(tries, n - 1, passed);
      var t0 := Run(tries, n - 1).value;
      var rec := tries(n - 1).rec;
      assert Run(tries, n).value == Record(t0, rec, tries(n - 1).end);
      RecordFirstTime(t0, rec, tries(n - 1).end, passed);
      RunLength(tries, n - 1);
      FirstWithAppend(t0.attempts, rec, passed);
      if FirstWith(t0.attempts, passed).Some? {
        RunRecordAt(tries, n - 1, FirstWith(t0.attempts, passed).value);
      }
    }
  }

  /** Recording an attempt sets a first time only when it is still unset and the attempt's flag matches. */
  lemma RecordFirstTime(tally: Tally, rec: AttemptRecord, end: real, passed: bool)
    ensures FirstTime(Record(tally, rec, end), passed) ==
      if FirstTime(tally, passed).Some? then FirstTime(tally, passed)
      else if rec.passed == passed then Some(end) else None
    ensures Record(tally, rec, end).attempts == tally.attempts + [rec]
  {
  }

  /** The records of the first m attempts are never changed by later attempts. */
  lemma {:induction false} RecordsOnlyGrow(tries: nat -> Try, m: nat, n: nat)
    requires m <= n && Run(tries, n).Returned?
    ensures Run(tries, m).Returned? && |Run(tries, n).value.attempts| == n
    ensures Run(tries, m).value.attempts == Run(tries, n).value.attempts[..m]
    decreases n
  {
    RunRecords(tries, n);
    if m < n {
      RecordsOnlyGrow(tries, m, n - 1);
      var t0 := Run(tries, n - 1).value;
      assert Run(tries, n).value.attempts == t0.attempts + [tries(n - 1).rec];
      assert (t0.attempts + [tries(n - 1).rec])[..m] == t0.attempts[..m];
    }
  }

  /**
   * An exception propagates iff some attempt among the first n fails, and
   * it is the exception of the first one.
   */
  lemma {:induction false} RunPropagation(tries: nat -> Try, n: nat)
    ensures Run(tries, n).Propagated? <==> exists i :: 0 <= i < n && tries(i).Failed?
    ensures Run(tries, n).Propagated? ==>
      exists i :: 0 <= i < n
        && tries(i) == Failed(Run(tries, n).typeName, Run(tries, n).message)
        && forall j :: 0 <= j < i ==> tries(j).Made?
  {
    if n > 0 {
      RunPropagation(tries, n - 1);
      if Run(tries, n - 1).Returned? {
        RunRecords(tries, n - 1);
      }
    }
  }

  /** Recorded attempts are numbered from 1 and attempt i + 1 ends at clock reading 2i + 2. */
  predicate Timed(clock: nat -> real, tries: nat -> Try, n: nat)
  {
    forall i :: 0 <= i < n && tries(i).Made? ==> tries(i).rec.attempt == i + 1 && tries(i).end == clock(2 * i + 2)
  }

  /** Exactly `max_tries` records (none when it is not positive), numbered 1, 2, … in order. */
  lemma AttemptsNumbered(taskId: string, taskType: string, cfg: Config, clock: nat -> real, tries: nat -> Try)
    requires Timed(clock, tries, Tries(cfg)) && Evaluation(taskId, taskType, cfg, clock, tries).Returned?
    ensures var r := Evaluation(taskId, taskType, cfg, clock, tries).value;
      && |r.attempts| == Tries(cfg)
      && r.attemptsTotal == cfg.maxTries
      && forall i :: 0 <= i < |r.attempts| ==> r.attempts[i].attempt == i + 1
  {
    RunRecords(tries, Tries(cfg));
  }

  /**
   * pass@1 is the pass flag of attempt 1 (false when there is no attempt);
   * pass@k holds iff some attempt passed; the pass rate is the share of
   * passing attempts among `max_tries` (0 when `max_tries` is 0) and lies
   * in [0, 1].
   */
  lemma PassMetrics(taskId: string, taskType: string, cfg: Config, clock: nat -> real, tries: nat -> Try)
    requires Evaluation(taskId, taskType, cfg, clock, tries).Returned?
    ensures var r := Evaluation(taskId, taskType, cfg, clock, tries).value;
      && (r.passAt1 <==> |r.attempts| >= 1 && r.attempts[0].passed)
      && (r.passAtK <==> exists i :: 0 <= i < |r.attempts| && r.attempts[i].passed)
      && r.passRate == (if cfg.maxTries > 0 then CountPassed(r.attempts) as real / cfg.maxTries as real else 0.0)
      && 0.0 <= r.passRate <= 1.0
  {
    var n := Tries(cfg);
    RunRecords(tries, n);
    RunCount(tries, n);
    var t := Run(tries, n).value;
    CountPassedBounds(t.attempts);
    if cfg.maxTries > 0 {
      RateBounds(t.passCount, cfg.maxTries);
    }
  }

  lemma RateBounds(count: nat, total: nat)
    requires 0 < total && count <= total
    ensures 0.0 <= count as real / total as real <= 1.0
  {
  }

  /**
   * The time to fix is 0 after a first-attempt pass. Otherwise it is the
   * end of the first passing attempt minus the end of attempt 1 (which
   * failed), and None when no attempt passed; with a non-decreasing clock
   * it is never negative.
   */
  lemma TimeToFix(taskId: string, taskType: string, cfg: Config, clock: nat -> real, tries: nat -> Try)
    requires Timed(clock, tries, Tries(cfg)) && Evaluation(taskId, taskType, cfg, clock, tries).Returned?
    ensures var r := Evaluation(taskId, taskType, cfg, clock, tries).value;
      r.timeToFix ==
        if r.passAt1 then Some(0.0)
        else match FirstWith(r.attempts, true)
          case None => None
          case Some(p) => Some(clock(2 * p + 2) - clock(2))
  {
    TallyTimes(clock, tries, Tries(cfg));
    SummaryTimeToFix(taskId, taskType, cfg, clock, Run(tries, Tries(cfg)).value);
  }

  /** What a tally records of the first pass and, after a failed attempt 1, of the first failure. */
  lemma TallyTimes(clock: nat -> real, tries: nat -> Try, n: nat)
    requires Timed(clock, tries, n) && Run(tries, n).Returned?
    ensures var t := Run(tries, n).value;
      && t.firstPassTime == (match FirstWith(t.attempts, true)
        case None => None
        case Some(p) => Some(clock(2 * p + 2)))
      && (FirstWith(t.attempts, true).Some? && !t.attempts[0].passed ==> t.firstFailureTime == Some(clock(2)))
  {
    var t := Run(tries, n).value;
    FirstPassTime(clock, tries, n);
    if FirstWith(t.attempts, true).Some? && !t.attempts[0].passed {
      FirstFailureTime(clock, tries, n);
    }
  }

  /** The time to fix a summary reports, given what the tally recorded of the first pass and failure. */
  lemma SummaryTimeToFix(taskId: string, taskType: string, cfg: Config, clock: nat -> real, t: Tally)
    requires t.firstPassTime == match FirstWith(t.attempts, true)
      case None => None
      case Some(p) => Some(clock(2 * p + 2))
    requires FirstWith(t.attempts, true).Some? && !t.attempts[0].passed ==> t.firstFailureTime == Some(clock(2))
    ensures var r := Summarize(taskId, taskType, cfg, clock, t);
      r.timeToFix ==
        if r.passAt1 then Some(0.0)
        else match FirstWith(r.attempts, true)
          case None => None
          case Some(p) => Some(clock(2 * p + 2) - clock(2))
  {
  }

  /** The first-pass time is the end of the first passing attempt, at clock reading 2p + 2. */
  lemma FirstPassTime(clock: nat -> real, tries: nat -> Try, n: nat)
    requires Timed(clock, tries, n) && Run(tries, n).Returned?
    ensures var t := Run(tries, n).value;
      t.firstPassTime == match FirstWith(t.attempts, true)
        case None => None
        case Some(p) => Some(clock(2 * p + 2))
  {
    RunFirstTimes(tries, n, true);
    var t := Run(tries, n).value;
    match FirstWith(t.attempts, true)
    case None =>
    case Some(p) =>
      RunRecordAt(tries, n, p);
  }

  /** Once some attempt passed and attempt 1 did not, the first-failure time is the end of attempt 1. */
  lemma FirstFailureTime(clock: nat -> real, tries: nat -> Try, n: nat)
    requires Timed(clock, tries, n) && Run(tries, n).Returned?
    requires var t := Run(tries, n).value; FirstWith(t.attempts, true).Some? && !t.attempts[0].passed
    ensures Run(tries, n).value.firstFailureTime == Some(clock(2))
  {
    RunFirstTimes(tries, n, false);
    RunRecordAt(tries, n, 0);
    assert FirstWith(Run(tries, n).value.attempts, false) == Some(0);
  }

  /** The record at index i is attempt i + 1's. */
  lemma RunRecordAt(tries: nat -> Try, n: nat, i: nat)
    requires Run(tries, n).Returned? && i < |Run(tries, n).value.attempts|
    ensures i < n && tries(i).Made? && Run(tries, n).value.attempts[i] == tries(i).rec
  {
    RunRecords(tries, n);
  }

  /** With a non-decreasing clock the time to fix is never negative. */
  lemma TimeToFixNonNegative(taskId: string, taskType: string, cfg: Config, clock: nat -> real, tries: nat -> Try)
    requires Timed(clock, tries, Tries(cfg)) && Evaluation(taskId, taskType, cfg, clock, tries).Returned?
    requires NonDecreasing(clock)
    ensures var r := Evaluation(taskId, taskType, cfg, clock, tries).value;
      r.timeToFix.Some? ==> r.timeToFix.value >= 0.0
  {
    TimeToFix(taskId, taskType, cfg, clock, tries);
    var r := Evaluation(taskId, taskType, cfg, clock, tries).value;
    if !r.passAt1 && FirstWith(r.attempts, true).Some? {
      var p := FirstWith(r.attempts, true).value;
      assert clock(2) <= clock(2 * p + 2);
    }
  }

  /** Five attempts failing, failing, passing, failing, passing: pass rate 0.4, time to fix t3 - t1. */
  lemma MixedAttemptsExample(taskId: string, taskType: string, cfg: Config, clock: nat -> real, tries: nat -> Try)
    requires cfg.maxTries == 5 && Timed(clock, tries, 5)
    requires Evaluation(taskId, taskType, cfg, clock, tries).Returned?
    requires var rs := Evaluation(taskId, taskType, cfg, clock, tries).value.attempts;
      |rs| == 5 && !rs[0].passed && !rs[1].passed && rs[2].passed && !rs[3].passed && rs[4].passed
    ensures var r := Evaluation(taskId, taskType, cfg, clock, tries).value;
      && !r.passAt1 && r.passAtK
      && r.passRate == 0.4
      && r.timeToFix == Some(clock(6) - clock(2))
  {
    var rs := Evaluation(taskId, taskType, cfg, clock, tries).value.attempts;
    assert FirstWith(rs, true) == Some(2);
    PassMetrics(taskId, taskType, cfg, clock, tries);
    TimeToFix(taskId, taskType, cfg, clock, tries);
    assert CountPassed(rs) == 2 by {
      assert rs[..4][..3][..2][..1][..0] == [];
    }
  }

  // ---------------------------------------------------------------------
  // Properties of `evaluate_task`'s attempts
  // ---------------------------------------------------------------------

  /** Attempts that agree on the first n outcomes agree on the accounting. */
  lemma {:induction false} RunAgrees(a: nat -> Try, b: nat -> Try, n: nat)
    requires forall i :: 0 <= i < n ==> a(i) == b(i)
    ensures Run(a, n) == Run(b, n)
  {
    if n > 0 {
      RunAgrees(a, b, n - 1);
    }
  }

  /** Whatever names the engine's attempts, `EvaluateTask` computes `EvaluateTaskSpec`. */
  lemma ProducedEvaluation(task: Task, env: Env, cfg: Config, tries: nat -> Try)
    requires Produces(task, env, cfg, tries)
    ensures Evaluation(task.taskId, task.taskType, cfg, env.clock, tries) == EvaluateTaskSpec(task, env, cfg)
  {
    var own := TriesOf(task, env, cfg);
    forall i | 0 <= i < Tries(cfg) ensures tries(i) == own(i) {
      assert own(i) == TryOf(task, env, cfg, i);
    }
    RunAgrees(tries, own, Tries(cfg));
  }

  /** An exception, by the name of its type and its message. */
  datatype Exception = Exception(typeName: string, message: string)

  /**
   * The exception attempt k lets out, if any: that of its generation when
   * `continue_on_error` is off, else, for a free-text task, that of the
   * arbiter asked about its answer (the empty answer after a caught error).
   */
  function AttemptRaises(task: Task, env: Env, cfg: Config, k: nat): Option<Exception>
  {
    var gen := env.generate(k, BuildPrompt(task));
    if gen.Raised? && !cfg.continueOnError then Some(Exception(gen.typeName, gen.message))
    else if task.taskType != "py" && ArbiterRaises(env.arbiter, task.text, AnswerOf(gen)) then
      var reply := ArbiterReply(env.arbiter, task.text, AnswerOf(gen)).value;
      Some(Exception(reply.typeName, reply.message))
    else None
  }

  /**
   * An attempt propagates an exception exactly when `AttemptRaises` names
   * one, and it is that one. Otherwise it is recorded as attempt i + 1,
   * ending at clock reading 2i + 2, with the model error and the length of
   * the answer, which is empty after an exception.
   */
  lemma AttemptOutcome(task: Task, env: Env, cfg: Config, tries: nat -> Try, i: nat)
    requires Produces(task, env, cfg, tries)
    ensures var e := AttemptRaises(task, env, cfg, i + 1);
      && (tries(i).Failed? <==> e.Some?)
      && (tries(i).Failed? ==> tries(i) == Failed(e.value.typeName, e.value.message))
    ensures var gen := env.generate(i + 1, BuildPrompt(task));
      tries(i).Made? ==>
        && tries(i).rec.attempt == i + 1
        && tries(i).end == env.clock(2 * i + 2)
        && tries(i).rec.elapsedSec == env.clock(2 * i + 2) - env.clock(2 * i + 1)
        && tries(i).rec.outputChars == |AnswerOf(gen)|
        && tries(i).rec.modelError == ModelErrorOf(gen)
  {
    assert tries(i) == TryOf(task, env, cfg, i);
    var gen := env.generate(i + 1, BuildPrompt(task));
    DispatchByType(task, AnswerOf(gen), env.tools(i + 1, AnswerOf(gen)), env, cfg.minCoverage);
  }

  /** A recorded attempt carries the grade of its answer, and passed iff that grade passed. */
  lemma AttemptGrade(task: Task, env: Env, cfg: Config, tries: nat -> Try, i: nat)
    requires Produces(task, env, cfg, tries)
    ensures var gen := env.generate(i + 1, BuildPrompt(task));
      var o := GradeOutput(task, AnswerOf(gen), env.tools(i + 1, AnswerOf(gen)), env, cfg.minCoverage);
      tries(i).Made? ==>
        && o.Returned?
        && tries(i).rec.details == o.value
        && tries(i).rec.passed == tries(i).rec.details.Passed()
  {
    assert tries(i) == TryOf(task, env, cfg, i);
  }

  /** The engine's attempts are numbered and timed as the accounting lemmas require. */
  lemma AttemptsTimed(task: Task, env: Env, cfg: Config, tries: nat -> Try, n: nat)
    requires Produces(task, env, cfg, tries)
    ensures Timed(env.clock, tries, n)
  {
    forall i | 0 <= i < n && tries(i).Made?
      ensures tries(i).rec.attempt == i + 1 && tries(i).end == env.clock(2 * i + 2)
    {
      AttemptOutcome(task, env, cfg, tries, i);
    }
  }

  /**
   * When attempt k fails exactly if `raises(k)` names an exception, and
   * with that exception, the run propagates iff some attempt raises, and
   * then it is the exception of the first one.
   */
  lemma RunStopsAtRaise(tries: nat -> Try, n: nat, raises: nat -> Option<Exception>)
    requires forall k :: 1 <= k <= n ==>
      && (tries(k - 1).Failed? <==> raises(k).Some?)
      && (tries(k - 1).Failed? ==> tries(k - 1) == Failed(raises(k).value.typeName, raises(k).value.message))
    ensures Run(tries, n).Propagated? <==> exists k :: 1 <= k <= n && raises(k).Some?
    ensures Run(tries, n).Propagated? ==>
      exists k :: 1 <= k <= n
        && raises(k) == Some(Exception(Run(tries, n).typeName, Run(tries, n).message))
        && forall j :: 1 <= j < k ==> raises(j).None?
  {
    RunPropagation(tries, n);
    if Run(tries, n).Propagated? {
      var i :| 0 <= i < n && tries(i) == Failed(Run(tries, n).typeName, Run(tries, n).message)
        && forall j :: 0 <= j < i ==> tries(j).Made?;
      assert raises(i + 1) == Some(Exception(Run(tries, n).typeName, Run(tries, n).message));
      forall j | 1 <= j < i + 1 ensures raises(j).None? {
        assert tries(j - 1).Made?;
      }
    }
    if exists k :: 1 <= k <= n && raises(k).Some? {
      var k :| 1 <= k <= n && raises(k).Some?;
      assert tries(k - 1).Failed?;
    }
  }

  /**
   * The exception of the first attempt that raises, its generation's (only
   * without `continue_on_error`) or its arbiter's, propagates; when none
   * raises nothing propagates.
   */
  lemma PropagationIff(task: Task, env: Env, cfg: Config, tries: nat -> Try)
    requires Produces(task, env, cfg, tries)
    ensures var e := Evaluation(task.taskId, task.taskType, cfg, env.clock, tries);
      e.Propagated? <==> exists k :: 1 <= k <= Tries(cfg) && AttemptRaises(task, env, cfg, k).Some?
    ensures var e := Evaluation(task.taskId, task.taskType, cfg, env.clock, tries);
      e.Propagated? ==>
        exists k :: 1 <= k <= Tries(cfg)
          && AttemptRaises(task, env, cfg, k) == Some(Exception(e.typeName, e.message))
          && forall j :: 1 <= j < k ==> AttemptRaises(task, env, cfg, j).None?
  {
    forall k | 1 <= k <= Tries(cfg)
      ensures tries(k - 1).Failed? <==> AttemptRaises(task, env, cfg, k).Some?
      ensures tries(k - 1).Failed? ==>
        tries(k - 1) == Failed(AttemptRaises(task, env, cfg, k).value.typeName, AttemptRaises(task, env, cfg, k).value.message)
    {
      AttemptOutcome(task, env, cfg, tries, k - 1);
    }
    var raises := (k: nat) => AttemptRaises(task, env, cfg, k);
    RunStopsAtRaise(tries, Tries(cfg), raises);
    var run := Run(tries, Tries(cfg));
    if run.Propagated? {
      var k :| 1 <= k <= Tries(cfg) && raises(k) == Some(Exception(run.typeName, run.message))
        && forall j :: 1 <= j < k ==> raises(j).None?;
      assert forall j :: 1 <= j < k ==> AttemptRaises(task, env, cfg, j).None? by {
        forall j | 1 <= j < k ensures AttemptRaises(task, env, cfg, j).None? {
          assert raises(j).None?;
        }
      }
    } else {
      forall k | 1 <= k <= Tries(cfg) ensures AttemptRaises(task, env, cfg, k).None? {
        assert raises(k).None?;
      }
    }
  }

  /**
   * For a py task, or with no configured arbiter, an attempt raises exactly
   * when its generation raises and `continue_on_error` is off.
   */
  lemma OnlyGenerationRaises(task: Task, env: Env, cfg: Config, k: nat)
    requires task.taskType == "py" || !Configured(env.arbiter)
    ensures var gen := env.generate(k, BuildPrompt(task));
      && (AttemptRaises(task, env, cfg, k).Some? <==> gen.Raised? && !cfg.continueOnError)
      && (AttemptRaises(task, env, cfg, k).Some? ==> AttemptRaises(task, env, cfg, k) == Some(Exception(gen.typeName, gen.message)))
  {
  }

  /**
   * With `continue_on_error`, and an arbiter that raises on none of the
   * answers, every attempt is graded and recorded: an attempt whose
   * generation raised records the exception as its model error and was
   * graded on the empty answer.
   */
  lemma ErrorsRecorded(task: Task, env: Env, cfg: Config, tries: nat -> Try, i: nat)
    requires Produces(task, env, cfg, tries)
    requires cfg.continueOnError && i < Tries(cfg)
    requires task.taskType == "py" ||
      forall k :: 1 <= k <= Tries(cfg) ==> !ArbiterRaises(env.arbiter, task.text, AnswerOf(env.generate(k, BuildPrompt(task))))
    ensures Evaluation(task.taskId, task.taskType, cfg, env.clock, tries).Returned?
    ensures |Evaluation(task.taskId, task.taskType, cfg, env.clock, tries).value.attempts| == Tries(cfg)
    ensures var rec := Evaluation(task.taskId, task.taskType, cfg, env.clock, tries).value.attempts[i];
      var gen := env.generate(i + 1, BuildPrompt(task));
      gen.Raised? ==>
        && rec.modelError == Some(gen.typeName + ": " + gen.message)
        && rec.outputChars == 0
        && GradeOutput(task, "", env.tools(i + 1, ""), env, cfg.minCoverage) == Returned(rec.details)
  {
    RunPropagation(tries, Tries(cfg));
    forall j | 0 <= j < Tries(cfg) ensures tries(j).Made? {
      AttemptOutcome(task, env, cfg, tries, j);
    }
    RunRecords(tries, Tries(cfg));
    AttemptOutcome(task, env, cfg, tries, i);
    AttemptGrade(task, env, cfg, tries, i);
  }
}
