/**
 * The report helpers of `harness/run_eval.py`: the averages over result
 * records (`_pass_rate`, `_avg_time_to_fix`, `_avg_py_coverage`) and the
 * choice of the tasks a run evaluates (type order, requested types,
 * resume).
 *
 * A result record is what the report reads from a result dict, whether
 * `evaluate_task` produced it in this run or it was loaded back from
 * `metrics.json` on resume; its fields are JSON values, so the averages
 * meet values of any type.
 */
module Report {
  import opened Text
  import opened PatchGrader
  import opened Engine

  /** A field value of a result dict, as far as the averages look at it. */
  datatype Value = NoneValue | BoolValue(b: bool) | IntValue(i: int) | FloatValue(x: real) | TextValue(s: string)

  /**
   * A result dict: `task_id`, `task_type`, the other top-level fields by
   * key, `time_to_fix`, and for each attempt in order the value of
   * `details.get("coverage_percent")`.
   */
  datatype Row = Row(
    taskId: string,
    taskType: string,
    fields: map<string, Value>,
    timeToFix: Option<real>,
    coverages: seq<Option<real>>)

  /** `row.get(key)`. */
  function Get(row: Row, key: string): Value
  {
    if key in row.fields then row.fields[key] else NoneValue
  }

  /** `float(value)` for an `int`, `float` or `bool` (which counts as 1 or 0); None for anything else. */
  function Numeric(v: Value): Option<real>
  {
    match v
    case BoolValue(b) => Some(if b then 1.0 else 0.0)
    case IntValue(i) => Some(i as real)
    case FloatValue(x) => Some(x)
    case _ => None
  }

  /** `sum(xs)`, adding from the left. */
  function Sum(xs: seq<real>): real
  {
    if xs == [] then 0.0 else Sum(xs[..|xs| - 1]) + xs[|xs| - 1]
  }

  /** `sum(xs) / len(xs)`, or None for no values. */
  function Mean(xs: seq<real>): Option<real>
  {
    if xs == [] then None else Some(Sum(xs) / |xs| as real)
  }

  lemma {:induction false} SumBetween(xs: seq<real>, lo: real, hi: real)
    requires forall k :: 0 <= k < |xs| ==> lo <= xs[k] <= hi
    ensures |xs| as real * lo <= Sum(xs) <= |xs| as real * hi
  {
    if xs != [] {
      SumBetween(xs[..|xs| - 1], lo, hi);
    }
  }

  /** A mean exists exactly for a non-empty list and lies within any bounds of its values. */
  lemma MeanBetween(xs: seq<real>, lo: real, hi: real)
    requires forall k :: 0 <= k < |xs| ==> lo <= xs[k] <= hi
    ensures Mean(xs).Some? <==> xs != []
    ensures Mean(xs).Some? ==> lo <= Mean(xs).value <= hi
  {
    if xs != [] {
      SumBetween(xs, lo, hi);
      var n := |xs| as real;
      assert n * lo / n == lo && n * hi / n == hi;
    }
  }

  // ---------------------------------------------------------------------
  // `_pass_rate`
  // ---------------------------------------------------------------------

  /** Kept by the `task_type` filter; None keeps every record. */
  predicate OfType(row: Row, taskType: Option<string>)
  {
    taskType.None? || row.taskType == taskType.value
  }

  /** `[r for r in results if task_type is None or r["task_type"] == task_type]`. */
  function Filtered(rows: seq<Row>, taskType: Option<string>): seq<Row>
  {
    if rows == [] then []
    else Filtered(rows[..|rows| - 1], taskType) + (if OfType(rows[|rows| - 1], taskType) then [rows[|rows| - 1]] else [])
  }

  /** The filter keeps exactly the records of the type asked for. */
  lemma {:induction false} FilteredMembers(rows: seq<Row>, taskType: Option<string>)
    ensures forall row :: row in Filtered(rows, taskType) <==> row in rows && OfType(row, taskType)
  {
    if rows != [] {
      FilteredMembers(rows[..|rows| - 1], taskType);
      assert rows == rows[..|rows| - 1] + [rows[|rows| - 1]];
    }
  }

  /** The filter keeps the records' order: filtering a concatenation filters each part. */
  lemma {:induction false} FilteredAppend(a: seq<Row>, b: seq<Row>, taskType: Option<string>)
    ensures Filtered(a + b, taskType) == Filtered(a, taskType) + Filtered(b, taskType)
  {
    if b != [] {
      assert (a + b)[..|a + b| - 1] == a + b[..|b| - 1];
      FilteredAppend(a, b[..|b| - 1], taskType);
    } else {
      assert a + b == a;
    }
  }

  /** The numeric values of `key` over the records, in order. */
  function NumericValues(rows: seq<Row>, key: string): seq<real>
  {
    if rows == [] then []
    else
      var v := Numeric(Get(rows[|rows| - 1], key));
      NumericValues(rows[..|rows| - 1], key) + (if v.Some? then [v.value] else [])
  }

  /** `_pass_rate(results, task_type, key)`. */
  function PassRateOf(results: seq<Row>, taskType: Option<string>, key: string): Option<real>
  {
    var filtered := Filtered(results, taskType);
    if filtered == [] then None else Mean(NumericValues(filtered, key))
  }

  method PassRate(results: seq<Row>, taskType: Option<string>, key: string) returns (r: Option<real>)
    ensures r == PassRateOf(results, taskType, key)
  {
    var filtered := Filtered(results, taskType);
    if filtered == [] {
      return None;
    }
    var values: seq<real> := [];
    var i := 0;
    while i < |filtered|
      invariant 0 <= i <= |filtered|
      invariant values == NumericValues(filtered[..i], key)
    {
      assert filtered[..i + 1][..i] == filtered[..i];
      var value := Numeric(Get(filtered[i], key));
      if value.Some? {
        values := values + [value.value];
      }
      i := i + 1;
    }
    assert filtered[..i] == filtered;
    r := Mean(values);
  }

  lemma {:induction false} NoNumericValues(rows: seq<Row>, key: string)
    ensures NumericValues(rows, key) == [] <==> forall row :: row in rows ==> Numeric(Get(row, key)).None?
  {
    if rows != [] {
      NoNumericValues(rows[..|rows| - 1], key);
      assert rows == rows[..|rows| - 1] + [rows[|rows| - 1]];
    }
  }

  /**
   * No rate exists exactly when no record of the type carries a number
   * under `key`: either no record has the type, or none of their values is
   * a number.
   */
  lemma PassRateNone(results: seq<Row>, taskType: Option<string>, key: string)
    ensures PassRateOf(results, taskType, key).None? <==>
      forall row :: row in results && OfType(row, taskType) ==> Numeric(Get(row, key)).None?
  {
    FilteredMembers(results, taskType);
    NoNumericValues(Filtered(results, taskType), key);
  }

  /** The number of records whose value under `key` is `True`. */
  function CountTrue(rows: seq<Row>, key: string): nat
  {
    if rows == [] then 0
    else CountTrue(rows[..|rows| - 1], key) + (if Get(rows[|rows| - 1], key) == BoolValue(true) then 1 else 0)
  }

  lemma {:induction false} FlagValues(rows: seq<Row>, key: string)
    requires forall k :: 0 <= k < |rows| ==> Get(rows[k], key).BoolValue?
    ensures |NumericValues(rows, key)| == |rows|
    ensures Sum(NumericValues(rows, key)) == CountTrue(rows, key) as real
    ensures CountTrue(rows, key) <= |rows|
  {
    if rows != [] {
      var init := rows[..|rows| - 1];
      assert forall k :: 0 <= k < |init| ==> init[k] == rows[k];
      FlagValues(init, key);
      var vs := NumericValues(rows, key);
      assert vs[..|vs| - 1] == NumericValues(init, key);
    }
  }

  /**
   * When every record of the type holds a flag under `key` (as `pass_at_1`
   * does), the rate is the fraction of those records whose flag is set.
   */
  lemma PassRateOfFlags(results: seq<Row>, taskType: Option<string>, key: string)
    requires forall row :: row in results && OfType(row, taskType) ==> Get(row, key).BoolValue?
    ensures var filtered := Filtered(results, taskType);
      PassRateOf(results, taskType, key) ==
        if filtered == [] then None else Some(CountTrue(filtered, key) as real / |filtered| as real)
    ensures PassRateOf(results, taskType, key).Some? ==> 0.0 <= PassRateOf(results, taskType, key).value <= 1.0
  {
    var filtered := Filtered(results, taskType);
    FilteredFlags(results, taskType, key);
    FlagValues(filtered, key);
    if filtered != [] {
      FractionBounds(CountTrue(filtered, key), |filtered|);
    }
  }

  lemma FilteredFlags(results: seq<Row>, taskType: Option<string>, key: string)
    requires forall row :: row in results && OfType(row, taskType) ==> Get(row, key).BoolValue?
    ensures forall k :: 0 <= k < |Filtered(results, taskType)| ==> Get(Filtered(results, taskType)[k], key).BoolValue?
  {
    var filtered := Filtered(results, taskType);
    FilteredMembers(results, taskType);
    forall k | 0 <= k < |filtered| ensures Get(filtered[k], key).BoolValue? {
      assert filtered[k] in filtered;
    }
  }

  lemma FractionBounds(c: nat, n: nat)
    requires 0 < n && c <= n
    ensures 0.0 <= c as real / n as real <= 1.0
  {
    assert c as real / n as real <= n as real / n as real;
  }

  // ---------------------------------------------------------------------
  // Result records of this run
  // ---------------------------------------------------------------------

  /** `details.get("coverage_percent")` of an attempt: present only after a patch applied. */
  function CoverageOf(g: Grade): Option<real>
  {
    if g.PyGrade? && g.py.Ran? && g.py.coveragePercent.Some? then Some(g.py.coveragePercent.value as real) else None
  }

  function Coverages(attempts: seq<AttemptRecord>): (r: seq<Option<real>>)
    ensures |r| == |attempts| && forall k :: 0 <= k < |attempts| ==> r[k] == CoverageOf(attempts[k].details)
  {
    seq(|attempts|, k requires 0 <= k < |attempts| => CoverageOf(attempts[k].details))
  }

  /** The result dict `evaluate_task` returns, as the report reads it. */
  function RowOf(t: TaskResult): Row
  {
    Row(t.taskId, t.taskType,
        map["model" := TextValue(t.model), "pass_at_1" := BoolValue(t.passAt1), "pass_at_k" := BoolValue(t.passAtK),
            "pass_rate" := FloatValue(t.passRate), "attempts_total" := IntValue(t.attemptsTotal),
            "elapsed_sec" := FloatValue(t.elapsedSec)],
        t.timeToFix, Coverages(t.attempts))
  }

  function RowsOf(ts: seq<TaskResult>): (r: seq<Row>)
    ensures |r| == |ts| && forall k :: 0 <= k < |ts| ==> r[k] == RowOf(ts[k])
  {
    seq(|ts|, k requires 0 <= k < |ts| => RowOf(ts[k]))
  }

  /**
   * Over the records of this run, the pass@1 rate of a type is the share of
   * its tasks that passed on the first attempt, and pass@k likewise.
   */
  lemma RunPassRates(ts: seq<TaskResult>, taskType: Option<string>)
    ensures var rows := RowsOf(ts);
      var filtered := Filtered(rows, taskType);
      && PassRateOf(rows, taskType, "pass_at_1") ==
           (if filtered == [] then None else Some(CountTrue(filtered, "pass_at_1") as real / |filtered| as real))
      && PassRateOf(rows, taskType, "pass_at_k") ==
           (if filtered == [] then None else Some(CountTrue(filtered, "pass_at_k") as real / |filtered| as real))
  {
    var rows := RowsOf(ts);
    forall row | row in rows && OfType(row, taskType)
      ensures Get(row, "pass_at_1").BoolValue? && Get(row, "pass_at_k").BoolValue?
    {
      var k :| 0 <= k < |rows| && rows[k] == row;
      assert row == RowOf(ts[k]);
    }
    PassRateOfFlags(rows, taskType, "pass_at_1");
    PassRateOfFlags(rows, taskType, "pass_at_k");
  }

  // ---------------------------------------------------------------------
  // `_avg_time_to_fix`
  // ---------------------------------------------------------------------

  /** `[r["time_to_fix"] for r in results if r["time_to_fix"] not in (None, 0.0)]`. */
  function FixTimes(rows: seq<Row>): seq<real>
  {
    if rows == [] then []
    else
      var t := rows[|rows| - 1].timeToFix;
      FixTimes(rows[..|rows| - 1]) + (if t.Some? && t.value != 0.0 then [t.value] else [])
  }

  /** `_avg_time_to_fix(results)`. */
  function AvgTimeToFix(rows: seq<Row>): Option<real>
  {
    Mean(FixTimes(rows))
  }

  /** The times averaged are exactly the recorded times that are neither None nor 0.0. */
  lemma {:induction false} FixTimesMembers(rows: seq<Row>)
    ensures forall x :: x in FixTimes(rows) <==> x != 0.0 && exists row :: row in rows && row.timeToFix == Some(x)
  {
    if rows != [] {
      var init := rows[..|rows| - 1];
      FixTimesMembers(init);
      assert rows == init + [rows[|rows| - 1]];
      forall x | x != 0.0 && exists row :: row in rows && row.timeToFix == Some(x)
        ensures x in FixTimes(rows)
      {
        var row :| row in rows && row.timeToFix == Some(x);
        if row != rows[|rows| - 1] {
          assert row in init;
        }
      }
    }
  }

  /**
   * No average exists exactly when every record's time to fix is None or
   * 0.0, so tasks that passed on their first attempt never enter it; an
   * average lies within any bounds of the times that do.
   */
  lemma AvgTimeToFixBounds(rows: seq<Row>, lo: real, hi: real)
    requires forall row :: row in rows && row.timeToFix.Some? && row.timeToFix.value != 0.0 ==>
      lo <= row.timeToFix.value <= hi
    ensures AvgTimeToFix(rows).None? <==>
      forall row :: row in rows ==> row.timeToFix.None? || row.timeToFix.value == 0.0
    ensures AvgTimeToFix(rows).Some? ==> lo <= AvgTimeToFix(rows).value <= hi
  {
    var xs := FixTimes(rows);
    FixTimesMembers(rows);
    forall k | 0 <= k < |xs| ensures lo <= xs[k] <= hi {
      assert xs[k] in xs;
    }
    MeanBetween(xs, lo, hi);
    if xs == [] {
    } else {
      assert xs[0] in xs;
    }
  }

  // ---------------------------------------------------------------------
  // `_avg_py_coverage`
  // ---------------------------------------------------------------------

  /** The coverage a record contributes: that of its last attempt, for a "py" record with attempts. */
  function LastCoverage(row: Row): Option<real>
  {
    if row.taskType != "py" || row.coverages == [] then None else row.coverages[|row.coverages| - 1]
  }

  function PyCoverages(rows: seq<Row>): seq<real>
  {
    if rows == [] then []
    else
      var c := LastCoverage(rows[|rows| - 1]);
      PyCoverages(rows[..|rows| - 1]) + (if c.Some? then [c.value] else [])
  }

  /** `_avg_py_coverage(results)`. */
  method AvgPyCoverage(results: seq<Row>) returns (r: Option<real>)
    ensures r == Mean(PyCoverages(results))
  {
    var values: seq<real> := [];
    var i := 0;
    while i < |results|
      invariant 0 <= i <= |results|
      invariant values == PyCoverages(results[..i])
    {
      assert results[..i + 1][..i] == results[..i];
      var row := results[i];
      i := i + 1;
      if row.taskType != "py" {
        continue;
      }
      if row.coverages == [] {
        continue;
      }
      var cov := row.coverages[|row.coverages| - 1];
      if cov.Some? {
        values := values + [cov.value];
      }
    }
    assert results[..i] == results;
    r := Mean(values);
  }

  lemma {:induction false} PyCoveragesMembers(rows: seq<Row>)
    ensures forall x :: x in PyCoverages(rows) <==> exists row :: row in rows && LastCoverage(row) == Some(x)
  {
    if rows != [] {
      var init := rows[..|rows| - 1];
      PyCoveragesMembers(init);
      assert rows == init + [rows[|rows| - 1]];
      forall x | exists row :: row in rows && LastCoverage(row) == Some(x)
        ensures x in PyCoverages(rows)
      {
        var row :| row in rows && LastCoverage(row) == Some(x);
        if row != rows[|rows| - 1] {
          assert row in init;
        }
      }
    }
  }

  /**
   * The average coverage is over the last attempts of "py" records that
   * report one; there is none exactly when no such record exists, and it
   * lies within any bounds of the values averaged.
   */
  lemma AvgPyCoverageBounds(rows: seq<Row>, lo: real, hi: real)
    requires forall row :: row in rows && LastCoverage(row).Some? ==> lo <= LastCoverage(row).value <= hi
    ensures Mean(PyCoverages(rows)).None? <==> forall row :: row in rows ==> LastCoverage(row).None?
    ensures Mean(PyCoverages(rows)).Some? ==> lo <= Mean(PyCoverages(rows)).value <= hi
  {
    var xs := PyCoverages(rows);
    PyCoveragesMembers(rows);
    forall k | 0 <= k < |xs| ensures lo <= xs[k] <= hi {
      assert xs[k] in xs;
    }
    MeanBetween(xs, lo, hi);
    if xs == [] {
    } else {
      assert xs[0] in xs;
    }
  }

  // ---------------------------------------------------------------------
  // Task selection in `main`
  // ---------------------------------------------------------------------

  /** The stripped, non-blank pieces, in order. */
  function NonBlankStripped(parts: seq<string>): seq<string>
  {
    if parts == [] then []
    else
      var t := Strip(parts[|parts| - 1]);
      NonBlankStripped(parts[..|parts| - 1]) + (if t != [] then [t] else [])
  }

  /** `[t.strip() for t in arg.split(",") if t.strip()]`. */
  function TaskTypes(arg: string): seq<string>
  {
    NonBlankStripped(Split(arg, ","))
  }

  /** Each requested type is the non-empty stripped form of one comma-separated piece. */
  lemma {:induction false} NonBlankStrippedMembers(parts: seq<string>)
    ensures forall t :: t in NonBlankStripped(parts) <==> t != [] && exists p :: p in parts && Strip(p) == t
  {
    if parts != [] {
      var init := parts[..|parts| - 1];
      NonBlankStrippedMembers(init);
      assert parts == init + [parts[|parts| - 1]];
      forall t | t != [] && exists p :: p in parts && Strip(p) == t
        ensures t in NonBlankStripped(parts)
      {
        var p :| p in parts && Strip(p) == t;
        if p != parts[|parts| - 1] {
          assert p in init;
        }
      }
    }
  }

  /** Requested types are non-empty and carry no surrounding whitespace. */
  lemma TaskTypesStripped(arg: string)
    ensures forall t :: t in TaskTypes(arg) ==> t != [] && Strip(t) == t
    ensures forall t :: t in TaskTypes(arg) <==> t != [] && exists p :: p in Split(arg, ",") && Strip(p) == t
  {
    NonBlankStrippedMembers(Split(arg, ","));
    forall t | t in TaskTypes(arg) ensures Strip(t) == t {
      var p :| p in Split(arg, ",") && Strip(p) == t;
      StripIdempotent(p);
    }
  }

  /** `tasks.get(task_type, [])`. */
  function TasksOf(tasks: map<string, seq<Task>>, taskType: string): seq<Task>
  {
    if taskType in tasks then tasks[taskType] else []
  }

  /** The tasks of one type when it was requested, else none. */
  function IfAllowed(tasks: map<string, seq<Task>>, allowed: set<string>, taskType: string): seq<Task>
  {
    if taskType in allowed then TasksOf(tasks, taskType) else []
  }

  /** The order in which `main` visits the task types. */
  function TypeOrder(): (r: seq<string>)
    ensures |r| == 4
  {
    ["md", "py", "synth", "lean"]
  }

  /** The tasks gathered for the first n types of the order. */
  function Gathered(tasks: map<string, seq<Task>>, allowed: set<string>, n: nat): seq<Task>
    requires n <= 4
  {
    if n == 0 then [] else Gathered(tasks, allowed, n - 1) + IfAllowed(tasks, allowed, TypeOrder()[n - 1])
  }

  /** The run is over the requested md, py, synth and lean tasks, in that order. */
  lemma GatheredOrder(tasks: map<string, seq<Task>>, allowed: set<string>)
    ensures Gathered(tasks, allowed, 4) ==
      IfAllowed(tasks, allowed, "md") + IfAllowed(tasks, allowed, "py")
      + IfAllowed(tasks, allowed, "synth") + IfAllowed(tasks, allowed, "lean")
  {
    var order := TypeOrder();
    assert order[0] == "md" && order[1] == "py" && order[2] == "synth" && order[3] == "lean";
    assert Gathered(tasks, allowed, 1) == IfAllowed(tasks, allowed, "md");
    assert Gathered(tasks, allowed, 2) == Gathered(tasks, allowed, 1) + IfAllowed(tasks, allowed, "py");
    assert Gathered(tasks, allowed, 3) == Gathered(tasks, allowed, 2) + IfAllowed(tasks, allowed, "synth");
  }

  /** A task is selected exactly when it is listed under one of the four known types that was requested. */
  lemma GatheredMembers(tasks: map<string, seq<Task>>, allowed: set<string>)
    ensures forall t :: t in Gathered(tasks, allowed, 4) <==>
      exists k :: 0 <= k < 4 && TypeOrder()[k] in allowed && t in TasksOf(tasks, TypeOrder()[k])
  {
    forall t ensures t in Gathered(tasks, allowed, 4) <==>
      exists k :: 0 <= k < 4 && TypeOrder()[k] in allowed && t in TasksOf(tasks, TypeOrder()[k])
    {
      GatheredMember(tasks, allowed, 4, t);
    }
  }

  lemma {:induction false} GatheredMember(tasks: map<string, seq<Task>>, allowed: set<string>, n: nat, t: Task)
    requires n <= 4
    ensures t in Gathered(tasks, allowed, n) <==>
      exists k :: 0 <= k < n && TypeOrder()[k] in allowed && t in TasksOf(tasks, TypeOrder()[k])
  {
    if n > 0 {
      GatheredMember(tasks, allowed, n - 1, t);
    }
  }

  /**
   * The tasks `main` runs before resume filtering: the requested types'
   * tasks in the fixed type order, or `SystemExit` when there are none.
   */
  method SelectTasks(tasks: map<string, seq<Task>>, taskTypes: seq<string>) returns (r: Outcome<seq<Task>>)
    ensures var all := Gathered(tasks, set t | t in taskTypes, 4);
      r == if all == [] then Propagated("SystemExit", "No tasks found for types: " + Join(taskTypes, ", "))
           else Returned(all)
  {
    var allowed := set t | t in taskTypes;
    var order := TypeOrder();
    var all: seq<Task> := [];
    for j := 0 to 4
      invariant all == Gathered(tasks, allowed, j)
    {
      if order[j] in allowed {
        all := all + TasksOf(tasks, order[j]);
      }
    }
    if all == [] {
      return Propagated("SystemExit", "No tasks found for types: " + Join(taskTypes, ", "));
    }
    r := Returned(all);
  }

  /** The ids of the records loaded back on resume. */
  function ExistingIds(loaded: seq<Row>): set<string>
  {
    set row | row in loaded :: row.taskId
  }

  /** `[t for t in tasks_all if t.task_id not in existing_ids]`. */
  function Pending(all: seq<Task>, existing: set<string>): seq<Task>
  {
    if all == [] then []
    else
      var t := all[|all| - 1];
      Pending(all[..|all| - 1], existing) + (if t.taskId !in existing then [t] else [])
  }

  /** On resume, exactly the selected tasks whose ids have no record yet are run. */
  lemma {:induction false} PendingMembers(all: seq<Task>, loaded: seq<Row>)
    ensures forall t :: t in Pending(all, ExistingIds(loaded)) <==>
      t in all && forall row :: row in loaded ==> row.taskId != t.taskId
  {
    var ids := ExistingIds(loaded);
    if all != [] {
      var init := all[..|all| - 1];
      PendingMembers(init, loaded);
      assert all == init + [all[|all| - 1]];
      var last := all[|all| - 1];
      if last.taskId in ids {
        var row :| row in loaded && row.taskId == last.taskId;
      }
    }
  }

  /** Resume filtering keeps the run order: filtering a concatenation filters each part. */
  lemma {:induction false} PendingAppend(a: seq<Task>, b: seq<Task>, existing: set<string>)
    ensures Pending(a + b, existing) == Pending(a, existing) + Pending(b, existing)
  {
    if b != [] {
      assert (a + b)[..|a + b| - 1] == a + b[..|b| - 1];
      PendingAppend(a, b[..|b| - 1], existing);
    } else {
      assert a + b == a;
    }
  }
}
