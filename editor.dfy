/** The pipeline editor: the three state updates the dashboard applies to
    its step list. Each takes the current list and returns the next one;
    the host stores it (`setPipeline`). */
module Editor {
  import opened Types
  import Seqs

  /** The ids that occur in a pipeline. */
  function Ids(p: seq<PipelineStep>): set<int>
  {
    set s | s in p :: s.id
  }

  /** No two steps share an id. The dashboard does not guarantee this (two
      steps added within one millisecond get the same id); the lemmas below
      say which edits keep it. */
  predicate UniqueIds(p: seq<PipelineStep>)
  {
    forall i, j :: 0 <= i < j < |p| ==> p[i].id != p[j].id
  }

  /** `addStep(type)` with the clock reading `id`: the new step, with an
      empty configuration, goes last. */
  function AddStep(p: seq<PipelineStep>, kind: StepType, id: int): (r: seq<PipelineStep>)
    ensures |r| == |p| + 1 && r[..|p|] == p
    ensures r[|p|].id == id && r[|p|].kind == kind && r[|p|].config == EmptyConfig
    ensures Ids(r) == Ids(p) + {id}
  {
    var r := p + [PipelineStep(id, kind, EmptyConfig)];
    assert forall s :: s in r <==> s in p || s == r[|p|];
    r
  }

  /** The test `step => step.id !== id`. */
  function HasOtherId(id: int): PipelineStep -> bool
  {
    (s: PipelineStep) => s.id != id
  }

  /** `removeStep(id)`: every step with that id goes, the rest keep their order. */
  function RemoveStep(p: seq<PipelineStep>, id: int): (r: seq<PipelineStep>)
    ensures Seqs.IsSubsequence(r, p)
    ensures forall s :: multiset(r)[s] == if s.id != id then multiset(p)[s] else 0
    ensures Ids(r) == Ids(p) - {id}
  {
    var r := Seqs.Filter(p, HasOtherId(id));
    Seqs.FilterIsSubsequence(p, HasOtherId(id));
    Seqs.FilterMultiset(p, HasOtherId(id));
    assert forall s :: s in r <==> s in p && s.id != id by {
      forall s ensures s in r <==> s in p && s.id != id {
        assert s in r <==> multiset(r)[s] > 0;
        assert s in p <==> multiset(p)[s] > 0;
      }
    }
    r
  }

  /** `{ ...config, ...patch }`: a key the patch has takes the patch's value;
      a key it lacks keeps the old one. For an object of two keys this rule
      is all the spread promises, so the contract is the definition, key by
      key; MergeTwice proves the laws that follow from it. */
  function Merge(config: StepConfig, patch: StepConfig): (c: StepConfig)
    ensures c.column == (if patch.column.Some? then patch.column else config.column)
    ensures c.value == (if patch.value.Some? then patch.value else config.value)
  {
    StepConfig(
      if patch.column.Some? then patch.column else config.column,
      if patch.value.Some? then patch.value else config.value)
  }

  /** `updateStepConfig(id, patch)`: every step with that id gets the patch
      merged into its configuration; every other step is untouched. */
  function UpdateStepConfig(p: seq<PipelineStep>, id: int, patch: StepConfig): (r: seq<PipelineStep>)
    ensures |r| == |p|
    ensures forall i :: 0 <= i < |p| ==> r[i].id == p[i].id && r[i].kind == p[i].kind
    ensures forall i :: 0 <= i < |p| && p[i].id != id ==> r[i] == p[i]
    ensures forall i :: 0 <= i < |p| && p[i].id == id ==> r[i].config == Merge(p[i].config, patch)
  {
    seq(|p|, i requires 0 <= i < |p| =>
      if p[i].id == id then p[i].(config := Merge(p[i].config, patch)) else p[i])
  }

  // ---------------------------------------------------------------------
  // Adding

  /** A step added with an id not yet in use keeps the ids unique. */
  lemma AddStepKeepsUnique(p: seq<PipelineStep>, kind: StepType, id: int)
    requires UniqueIds(p) && id !in Ids(p)
    ensures UniqueIds(AddStep(p, kind, id))
  {
    var r := AddStep(p, kind, id);
    forall i, j | 0 <= i < j < |r| ensures r[i].id != r[j].id {
      if j == |p| {
        assert r[i] == p[i] && p[i] in p;
      } else {
        assert r[i] == p[i] && r[j] == p[j];
      }
    }
  }

  /** Removing a freshly added step undoes the addition. */
  lemma RemoveAfterAdd(p: seq<PipelineStep>, kind: StepType, id: int)
    requires id !in Ids(p)
    ensures RemoveStep(AddStep(p, kind, id), id) == p
  {
    var step := PipelineStep(id, kind, EmptyConfig);
    Seqs.FilterConcat(p, [step], HasOtherId(id));
    RemoveAbsent(p, id);
    assert Seqs.Filter([step], HasOtherId(id)) == [];
    assert p + [] == p;
  }

  // ---------------------------------------------------------------------
  // Removing

  /** Removing an id nobody has leaves the pipeline as it was. */
  lemma RemoveAbsent(p: seq<PipelineStep>, id: int)
    requires id !in Ids(p)
    ensures RemoveStep(p, id) == p
  {
    forall s | s in p ensures HasOtherId(id)(s) {
      assert s.id in Ids(p);
    }
    Seqs.FilterAllKept(p, HasOtherId(id));
  }

  /** Removing twice is removing once. */
  lemma RemoveIdempotent(p: seq<PipelineStep>, id: int)
    ensures RemoveStep(RemoveStep(p, id), id) == RemoveStep(p, id)
  {
    Seqs.FilterIdempotent(p, HasOtherId(id));
  }

  /** The steps after the first of a pipeline with unique ids have unique
      ids, none of them the first step's. */
  lemma UniqueTail(p: seq<PipelineStep>)
    requires UniqueIds(p) && p != []
    ensures UniqueIds(p[1..]) && p[0].id !in Ids(p[1..])
  {
    var rest := p[1..];
    forall i, j | 0 <= i < j < |rest| ensures rest[i].id != rest[j].id {
      assert rest[i] == p[i + 1] && rest[j] == p[j + 1];
    }
    forall s | s in rest ensures s.id != p[0].id {
      var j :| 0 <= j < |rest| && rest[j] == s;
      assert p[j + 1] == s;
    }
  }

  /** The ids of a step put in front of a pipeline. */
  lemma IdsCons(x: PipelineStep, q: seq<PipelineStep>)
    ensures Ids([x] + q) == {x.id} + Ids(q)
  {
    assert forall s :: s in [x] + q <==> s == x || s in q;
  }

  /** A step whose id the pipeline lacks can go in front of it. */
  lemma UniqueCons(x: PipelineStep, q: seq<PipelineStep>)
    requires UniqueIds(q) && x.id !in Ids(q)
    ensures UniqueIds([x] + q)
  {
    var r := [x] + q;
    forall i, j | 0 <= i < j < |r| ensures r[i].id != r[j].id {
      assert r[j] == q[j - 1] && r[j] in q;
      if i > 0 {
        assert r[i] == q[i - 1];
      }
    }
  }

  /** Filtering a pipeline with unique ids keeps them unique. */
  lemma {:induction false} FilterKeepsUnique(p: seq<PipelineStep>, keep: PipelineStep -> bool)
    requires UniqueIds(p)
    ensures UniqueIds(Seqs.Filter(p, keep))
    ensures Ids(Seqs.Filter(p, keep)) <= Ids(p)
    decreases |p|
  {
    if p != [] {
      var rest := p[1..];
      UniqueTail(p);
      FilterKeepsUnique(rest, keep);
      assert p == [p[0]] + rest;
      IdsCons(p[0], rest);
      if keep(p[0]) {
        var q := Seqs.Filter(rest, keep);
        assert Seqs.Filter(p, keep) == [p[0]] + q;
        IdsCons(p[0], q);
        UniqueCons(p[0], q);
      }
    }
  }

  /** With unique ids, removing an id that is present drops exactly one step. */
  lemma {:induction false} RemoveOneStep(p: seq<PipelineStep>, id: int)
    requires UniqueIds(p) && id in Ids(p)
    ensures |RemoveStep(p, id)| == |p| - 1
    decreases |p|
  {
    var rest := p[1..];
    UniqueTail(p);
    assert p == [p[0]] + rest;
    if p[0].id == id {
      RemoveAbsent(rest, id);
    } else {
      var s :| s in p && s.id == id;
      assert s in rest;
      RemoveOneStep(rest, id);
    }
  }

  /** Removing keeps ids unique. */
  lemma RemoveKeepsUnique(p: seq<PipelineStep>, id: int)
    requires UniqueIds(p)
    ensures UniqueIds(RemoveStep(p, id))
  {
    FilterKeepsUnique(p, HasOtherId(id));
  }

  // ---------------------------------------------------------------------
  // Updating

  /** Merging the patch `a` and then `b` is merging `b` over `a` once. */
  lemma MergeTwice(c: StepConfig, a: StepConfig, b: StepConfig)
    ensures Merge(Merge(c, a), b) == Merge(c, Merge(a, b))
    ensures Merge(Merge(c, a), a) == Merge(c, a)
    ensures Merge(c, EmptyConfig) == c
  {
  }

  /** Updating never changes which ids the pipeline holds, so unique ids stay unique. */
  lemma UpdateKeepsIds(p: seq<PipelineStep>, id: int, patch: StepConfig)
    ensures Ids(UpdateStepConfig(p, id, patch)) == Ids(p)
    ensures UniqueIds(p) ==> UniqueIds(UpdateStepConfig(p, id, patch))
  {
    var r := UpdateStepConfig(p, id, patch);
    forall x | x in Ids(r) ensures x in Ids(p) {
      var s :| s in r && s.id == x;
      var i :| 0 <= i < |r| && r[i] == s;
      assert p[i] in p;
    }
    forall x | x in Ids(p) ensures x in Ids(r) {
      var s :| s in p && s.id == x;
      var i :| 0 <= i < |p| && p[i] == s;
      assert r[i] in r;
    }
  }

  /** Updating an id nobody has, or with an empty patch, changes nothing. */
  lemma UpdateNoop(p: seq<PipelineStep>, id: int, patch: StepConfig)
    requires id !in Ids(p) || patch == EmptyConfig
    ensures UpdateStepConfig(p, id, patch) == p
  {
    var r := UpdateStepConfig(p, id, patch);
    forall i | 0 <= i < |p| ensures r[i] == p[i] {
      if p[i].id == id {
        assert p[i] in p;
      }
    }
  }

  /** Two updates of the same step are one update with the patches merged. */
  lemma UpdateTwice(p: seq<PipelineStep>, id: int, a: StepConfig, b: StepConfig)
    ensures UpdateStepConfig(UpdateStepConfig(p, id, a), id, b) ==
      UpdateStepConfig(p, id, Merge(a, b))
  {
    var l := UpdateStepConfig(UpdateStepConfig(p, id, a), id, b);
    var r := UpdateStepConfig(p, id, Merge(a, b));
    forall i | 0 <= i < |p| ensures l[i] == r[i] {
      MergeTwice(p[i].config, a, b);
    }
  }

  /** Removing a step makes any earlier configuration of it irrelevant. */
  lemma {:induction false} RemoveAfterUpdate(p: seq<PipelineStep>, id: int, patch: StepConfig)
    ensures RemoveStep(UpdateStepConfig(p, id, patch), id) == RemoveStep(p, id)
    decreases |p|
  {
    if p != [] {
      var u := UpdateStepConfig(p, id, patch);
      assert u[1..] == UpdateStepConfig(p[1..], id, patch);
      assert u[0].id == p[0].id && (p[0].id != id ==> u[0] == p[0]);
      RemoveAfterUpdate(p[1..], id, patch);
    }
  }
}
