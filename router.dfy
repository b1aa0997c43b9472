/**
 * The route choice of `harness/router.py`: which model answers code
 * tasks and which answers the free-text ("logic") tasks, decided by
 * evaluating the first py task and the first md task once with each of
 * the two candidate models.
 *
 * The four `evaluate_task` runs are supplied as `evaluate(task, model)`:
 * the outcome of `core.evaluate_task` for that task and model name, with
 * the router's `max_tries`, `min_coverage` and clients fixed.
 */
module Router {
  import opened Text
  import opened Engine

  datatype Samples = Samples(pyModel: TaskResult, pyCodegen: TaskResult, mdModel: TaskResult, mdCodegen: TaskResult)

  datatype Route = Route(codeModel: string, logicModel: string, reason: string, samples: Option<Samples>)

  /** A Python bool compared as the integer it stands for. */
  function Flag(b: bool): int
  {
    if b then 1 else 0
  }

  /** The codegen model wins py and loses md, each by a strict pass@1 comparison. */
  predicate CodegenWins(s: Samples)
  {
    Flag(s.pyCodegen.passAt1) > Flag(s.pyModel.passAt1) && Flag(s.mdCodegen.passAt1) < Flag(s.mdModel.passAt1)
  }

  /** The route once the four sample evaluations are in. */
  function Decide(model: string, codegen: string, s: Samples): (r: Route)
    ensures r.logicModel == model && r.samples == Some(s)
    ensures r.codeModel == codegen || r.codeModel == model
  {
    if CodegenWins(s) then Route(codegen, model, "codegen better on py, model better on md", Some(s))
    else Route(model, model, "default to single model", Some(s))
  }

  /** `choose_route` over the listed py and md tasks; an exception of any sample run propagates. */
  function ChooseRoute(pyTasks: seq<Task>, mdTasks: seq<Task>, model: string, codegen: string,
                       evaluate: (Task, string) -> Outcome<TaskResult>): (r: Outcome<Route>)
    ensures r.Returned? ==> r.value.logicModel == model
    ensures r.Returned? ==> r.value.codeModel == codegen || r.value.codeModel == model
  {
    if pyTasks == [] || mdTasks == [] then Returned(Route(model, model, "missing sample tasks", None))
    else
      var samplePy := pyTasks[0];
      var sampleMd := mdTasks[0];
      match evaluate(samplePy, model)
      case Propagated(t, m) => Propagated(t, m)
      case Returned(pyModel) =>
        match evaluate(samplePy, codegen)
        case Propagated(t, m) => Propagated(t, m)
        case Returned(pyCodegen) =>
          match evaluate(sampleMd, model)
          case Propagated(t, m) => Propagated(t, m)
          case Returned(mdModel) =>
            match evaluate(sampleMd, codegen)
            case Propagated(t, m) => Propagated(t, m)
            case Returned(mdCodegen) => Returned(Decide(model, codegen, Samples(pyModel, pyCodegen, mdModel, mdCodegen)))
  }

  /** The four sample runs, in the order `choose_route` makes them. */
  function SampleRuns(py: Task, md: Task, model: string, codegen: string,
                      evaluate: (Task, string) -> Outcome<TaskResult>): seq<Outcome<TaskResult>>
  {
    [evaluate(py, model), evaluate(py, codegen), evaluate(md, model), evaluate(md, codegen)]
  }

  /** Without a py task or without an md task nothing is evaluated and both roles go to `model`. */
  lemma MissingSamples(pyTasks: seq<Task>, mdTasks: seq<Task>, model: string, codegen: string,
                       evaluate: (Task, string) -> Outcome<TaskResult>)
    requires pyTasks == [] || mdTasks == []
    ensures ChooseRoute(pyTasks, mdTasks, model, codegen, evaluate) == Returned(Route(model, model, "missing sample tasks", None))
  {
  }

  /** Only the first py task and the first md task are evaluated. */
  lemma OnlyFirstSampled(pyTasks: seq<Task>, mdTasks: seq<Task>, pyTasks': seq<Task>, mdTasks': seq<Task>,
                         model: string, codegen: string, evaluate: (Task, string) -> Outcome<TaskResult>)
    requires pyTasks != [] && mdTasks != [] && pyTasks' != [] && mdTasks' != []
    requires pyTasks[0] == pyTasks'[0] && mdTasks[0] == mdTasks'[0]
    ensures ChooseRoute(pyTasks, mdTasks, model, codegen, evaluate) == ChooseRoute(pyTasks', mdTasks', model, codegen, evaluate)
  {
  }

  /**
   * With both samples present, the route propagates exactly when a sample
   * run raises, and then it carries the exception of the first run that raised.
   */
  lemma RoutePropagation(pyTasks: seq<Task>, mdTasks: seq<Task>, model: string, codegen: string,
                         evaluate: (Task, string) -> Outcome<TaskResult>)
    requires pyTasks != [] && mdTasks != []
    ensures var runs := SampleRuns(pyTasks[0], mdTasks[0], model, codegen, evaluate);
      var r := ChooseRoute(pyTasks, mdTasks, model, codegen, evaluate);
      && (r.Propagated? <==> exists k :: 0 <= k < 4 && runs[k].Propagated?)
      && (forall k :: 0 <= k < 4 && runs[k].Propagated? && (forall j :: 0 <= j < k ==> runs[j].Returned?) ==>
            r == Propagated(runs[k].typeName, runs[k].message))
  {
    var runs := SampleRuns(pyTasks[0], mdTasks[0], model, codegen, evaluate);
    assert runs[0] == evaluate(pyTasks[0], model);
    assert runs[1] == evaluate(pyTasks[0], codegen);
    assert runs[2] == evaluate(mdTasks[0], model);
    assert runs[3] == evaluate(mdTasks[0], codegen);
  }

  /**
   * Once the samples are in, code tasks go to `codegen` under the
   * "codegen better" reason exactly when codegen passed the py sample on
   * its first attempt and `model` did not, while `model` passed the md
   * sample and codegen did not; in every other case both roles go to `model`.
   */
  lemma CodegenChosenIff(model: string, codegen: string, s: Samples)
    ensures var r := Decide(model, codegen, s);
      var wins := s.pyCodegen.passAt1 && !s.pyModel.passAt1 && s.mdModel.passAt1 && !s.mdCodegen.passAt1;
      && (r.reason == "codegen better on py, model better on md" <==> wins)
      && (wins ==> r.codeModel == codegen)
      && (!wins ==> r == Route(model, model, "default to single model", Some(s)))
  {
    var wins := s.pyCodegen.passAt1 && !s.pyModel.passAt1 && s.mdModel.passAt1 && !s.mdCodegen.passAt1;
    assert CodegenWins(s) <==> wins;
    assert "codegen better on py, model better on md" != "default to single model" by {
      assert "codegen better on py, model better on md"[0] != "default to single model"[0];
    }
  }
}
