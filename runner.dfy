/** The pipeline runner: the steps, in order, applied to a copy of the
    loaded table. Only a filter step whose column and value are both set
    changes the rows; a calculate step computes and logs an average and a
    chart step does nothing at all. */
module Runner {
  import opened Types
  import opened Text
  import Seqs

  /** The filter test: the row has the column, and its cell, lower-cased,
      contains the lower-cased value. A row without the column fails
      (`row[column]?.…` is undefined, which is falsy). */
  predicate RowMatches(row: DataRow, column: string, value: string)
    ensures RowMatches(row, column, value) <==>
              column in row && IsSubstring(LowerString(value), LowerString(row[column]))
  {
    column in row && Includes(LowerString(row[column]), LowerString(value))
  }

  /** The test `row => row[column]?.toLowerCase().includes(value.toLowerCase())`. */
  function Matches(column: string, value: string): DataRow -> bool
  {
    (row: DataRow) => RowMatches(row, column, value)
  }

  /** A filter step with a truthy column and a truthy value: the only kind
      of step that changes the rows. */
  predicate IsActiveFilter(step: PipelineStep)
  {
    step.kind == Filter && IsSet(step.config.column) && IsSet(step.config.value)
  }

  /** Whether `row` survives `step`: every row survives a step that is not
      an active filter. */
  predicate Keeps(step: PipelineStep, row: DataRow)
  {
    !IsActiveFilter(step) || RowMatches(row, step.config.column.value, step.config.value.value)
  }

  /** One pass of the loop body over the current rows. */
  function ApplyStep(rows: Table, step: PipelineStep): (r: Table)
    ensures Seqs.IsSubsequence(r, rows)
    ensures |r| <= |rows| && forall row :: row in r ==> row in rows && Keeps(step, row)
    ensures !IsActiveFilter(step) ==> r == rows
  {
    if IsActiveFilter(step) then
      Seqs.FilterIsSubsequence(rows, Matches(step.config.column.value, step.config.value.value));
      Seqs.Filter(rows, Matches(step.config.column.value, step.config.value.value))
    else
      Seqs.SubsequenceRefl(rows);
      rows
  }

  /** The rows after the first `|steps|` passes of the loop. */
  function Run(rows: Table, steps: seq<PipelineStep>): (r: Table)
    ensures |r| <= |rows|
    ensures forall row :: row in r ==> row in rows && KeepsAll(steps, row)
    decreases |steps|
  {
    if steps == [] then rows
    else
      var init, last := steps[..|steps| - 1], steps[|steps| - 1];
      assert forall step :: step in steps ==> step in init || step == last by {
        assert steps == init + [last];
      }
      ApplyStep(Run(rows, init), last)
  }

  /** `runPipeline`: the rows the dashboard stores as `processedData`. */
  method RunPipeline(data: Table, pipeline: seq<PipelineStep>) returns (result: Table)
    ensures result == Run(data, pipeline)
    ensures Seqs.IsSubsequence(result, data)
    ensures forall row :: multiset(result)[row] ==
                          (if KeepsAll(pipeline, row) then multiset(data)[row] else 0)
  {
    result := data;
    var i := 0;
    while i < |pipeline|
      invariant 0 <= i <= |pipeline|
      invariant result == Run(data, pipeline[..i])
    {
      var step := pipeline[i];
      if step.kind == Filter && IsSet(step.config.column) && IsSet(step.config.value) {
        result := Seqs.Filter(result, Matches(step.config.column.value, step.config.value.value));
      } else if step.kind == Calculate && IsSet(step.config.column) {
        // The average of the column is computed and logged; the rows stay as they are.
      }
      assert pipeline[..i + 1][..i] == pipeline[..i];
      i := i + 1;
    }
    assert pipeline[..|pipeline|] == pipeline;
    RunExact(data, pipeline);
  }

  // ---------------------------------------------------------------------
  // What the runner computes

  /** `row` survives every step of `steps`. */
  predicate KeepsAll(steps: seq<PipelineStep>, row: DataRow)
  {
    forall step :: step in steps ==> Keeps(step, row)
  }

  function SurvivesAll(steps: seq<PipelineStep>): DataRow -> bool
  {
    (row: DataRow) => KeepsAll(steps, row)
  }

  /** The whole run is one filter: a row is kept iff every step keeps it. */
  lemma {:induction false} RunIsFilter(rows: Table, steps: seq<PipelineStep>)
    ensures Run(rows, steps) == Seqs.Filter(rows, SurvivesAll(steps))
    decreases |steps|
  {
    if steps == [] {
      Seqs.FilterAllKept(rows, SurvivesAll(steps));
    } else {
      var init, last := steps[..|steps| - 1], steps[|steps| - 1];
      assert steps == init + [last];
      assert forall step :: step in steps <==> step in init || step == last;
      RunIsFilter(rows, init);
      var before := Seqs.Filter(rows, SurvivesAll(init));
      if IsActiveFilter(last) {
        var m := Matches(last.config.column.value, last.config.value.value);
        Seqs.FilterFusion(rows, SurvivesAll(init), m);
        forall x | x in rows ensures Seqs.Both(SurvivesAll(init), m)(x) == SurvivesAll(steps)(x) {
          assert Keeps(last, x) == m(x);
        }
        Seqs.FilterExt(rows, Seqs.Both(SurvivesAll(init), m), SurvivesAll(steps));
      } else {
        Seqs.FilterExt(rows, SurvivesAll(init), SurvivesAll(steps));
      }
    }
  }

  /** The result of a run holds exactly the rows every step keeps, each as
      often as in the input, in their input order. */
  lemma RunExact(rows: Table, steps: seq<PipelineStep>)
    ensures Seqs.IsSubsequence(Run(rows, steps), rows)
    ensures |Run(rows, steps)| <= |rows|
    ensures forall row :: multiset(Run(rows, steps))[row] ==
                          (if KeepsAll(steps, row) then multiset(rows)[row] else 0)
  {
    RunIsFilter(rows, steps);
    Seqs.FilterIsSubsequence(rows, SurvivesAll(steps));
    Seqs.FilterMultiset(rows, SurvivesAll(steps));
  }

  /** The result depends only on which active filter steps the pipeline
      holds: reordering steps, repeating one, or adding and removing
      calculate, chart and unconfigured filter steps change nothing. */
  lemma RunDependsOnActiveFilters(rows: Table, p: seq<PipelineStep>, q: seq<PipelineStep>)
    requires forall step :: IsActiveFilter(step) ==> (step in p <==> step in q)
    ensures Run(rows, p) == Run(rows, q)
  {
    RunIsFilter(rows, p);
    RunIsFilter(rows, q);
    forall row | row in rows ensures SurvivesAll(p)(row) == SurvivesAll(q)(row) {
      if !KeepsAll(p, row) {
        var step :| step in p && !Keeps(step, row);
        assert step in q;
      }
      if !KeepsAll(q, row) {
        var step :| step in q && !Keeps(step, row);
        assert step in p;
      }
    }
    Seqs.FilterExt(rows, SurvivesAll(p), SurvivesAll(q));
  }

  /** A pipeline without an active filter, the empty one included, hands
      back the table it was given. */
  lemma RunWithoutFilters(rows: Table, steps: seq<PipelineStep>)
    requires forall step :: step in steps ==> !IsActiveFilter(step)
    ensures Run(rows, steps) == rows
  {
    RunDependsOnActiveFilters(rows, steps, []);
  }

  /** Calculate and chart steps never touch the rows. */
  lemma OtherStepsKeepRows(rows: Table, step: PipelineStep)
    requires step.kind == Calculate || step.kind == Chart
    ensures ApplyStep(rows, step) == rows
  {
  }

  /** Applying the same step twice is applying it once. */
  lemma ApplyStepIdempotent(rows: Table, step: PipelineStep)
    ensures ApplyStep(ApplyStep(rows, step), step) == ApplyStep(rows, step)
  {
    if IsActiveFilter(step) {
      Seqs.FilterIdempotent(rows, Matches(step.config.column.value, step.config.value.value));
    }
  }

  /** Running a pipeline and then more steps is running the joined pipeline:
      each step consumes what the previous one produced. */
  lemma {:induction false} RunAppend(rows: Table, p: seq<PipelineStep>, q: seq<PipelineStep>)
    ensures Run(rows, p + q) == Run(Run(rows, p), q)
    decreases |q|
  {
    if q == [] {
      assert p + q == p;
    } else {
      var init := q[..|q| - 1];
      assert (p + q)[..|p + q| - 1] == p + init;
      assert (p + q)[|p + q| - 1] == q[|q| - 1];
      RunAppend(rows, p, init);
    }
  }

  /** An active filter step keeps exactly the matching rows, in their order,
      and every row it keeps has the column. */
  lemma FilterStepExact(rows: Table, step: PipelineStep)
    requires IsActiveFilter(step)
    ensures Seqs.IsSubsequence(ApplyStep(rows, step), rows)
    ensures forall row :: multiset(ApplyStep(rows, step))[row] ==
                          (if RowMatches(row, step.config.column.value, step.config.value.value)
                           then multiset(rows)[row] else 0)
    ensures forall row :: row in ApplyStep(rows, step) ==> step.config.column.value in row
  {
    Seqs.FilterMultiset(rows, Matches(step.config.column.value, step.config.value.value));
  }

  /** Conversely, the rows an active filter step keeps are the only
      subsequence of its input with that content. */
  lemma FilterStepUnique(rows: Table, step: PipelineStep, out: Table)
    requires IsActiveFilter(step)
    requires Seqs.IsSubsequence(out, rows)
    requires forall row :: multiset(out)[row] ==
                           (if RowMatches(row, step.config.column.value, step.config.value.value)
                            then multiset(rows)[row] else 0)
    ensures out == ApplyStep(rows, step)
  {
    var m := Matches(step.config.column.value, step.config.value.value);
    forall x ensures multiset(out)[x] == Seqs.Kept(rows, m, x) {
    }
    Seqs.FilterUnique(rows, m, out);
  }

  /** The dashboard's case-insensitive match: a "Dept" filter for "eng"
      keeps both "Eng" rows of a three-row table. */
  lemma FilterIgnoresCase()
    ensures var eng1 := map["Dept" := "Eng", "Age" := "25"];
      var sales := map["Dept" := "Sales", "Age" := "35"];
      var eng2 := map["Dept" := "Eng", "Age" := "45"];
      var step := PipelineStep(1, Filter, StepConfig(Some("Dept"), Some("eng")));
      Run([eng1, sales, eng2], [step]) == [eng1, eng2]
  {
    var eng1 := map["Dept" := "Eng", "Age" := "25"];
    var sales := map["Dept" := "Sales", "Age" := "35"];
    var eng2 := map["Dept" := "Eng", "Age" := "45"];
    var step := PipelineStep(1, Filter, StepConfig(Some("Dept"), Some("eng")));
    assert [step][..0] == [];
    assert LowerString("Eng") == "eng";
    assert LowerString("eng") == "eng";
    assert LowerString("Sales") == "sales";
    assert OccursAt("eng", "eng", 0);
    forall i ensures !OccursAt("eng", "sales", i) {
      if 0 <= i <= 2 {
        assert "sales"[i..i + 3][0] == "sales"[i] != 'e';
      }
    }
    assert [eng1, sales, eng2][1..] == [sales, eng2];
    assert [sales, eng2][1..] == [eng2];
    assert RowMatches(eng1, "Dept", "eng") && RowMatches(eng2, "Dept", "eng");
    assert !RowMatches(sales, "Dept", "eng");
    var m := Matches("Dept", "eng");
    assert [eng2][1..] == [];
    assert Seqs.Filter([eng2], m) == [eng2];
    assert Seqs.Filter([sales, eng2], m) == [eng2];
    assert Seqs.Filter([eng1, sales, eng2], m) == [eng1, eng2];
    assert IsActiveFilter(step);
    assert Run([eng1, sales, eng2], [step]) == ApplyStep([eng1, sales, eng2], step);
  }
}
