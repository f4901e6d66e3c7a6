/** The create pattern both repositories share: begin a transaction, insert,
    then roll back if the insert failed or commit if it succeeded, collecting
    every error along the way. The outcome of each step is an input. */
module Transaction {
  import opened Wrappers
  import opened Store

  /** What `Insert` returned: the generated primary key and its error. */
  datatype InsertOutcome = InsertOutcome(id: int, err: Option<Error>)

  /** The outcome each transaction step would have if it were issued. */
  datatype StepOutcomes = StepOutcomes(
    begin: Option<Error>,
    insert: InsertOutcome,
    rollback: Option<Error>,
    commit: Option<Error>)

  datatype Step = Begin | Insert | Rollback | Commit

  /** The value returned by the create: the key `Insert` reported, and the
      errors in the order they were collected. */
  datatype Created = Created(id: int, errs: seq<Error>)

  function ErrorsOf(e: Option<Error>): (es: seq<Error>)
    ensures |es| <= 1
    ensures e.None? <==> es == []
  {
    match e
    case None => []
    case Some(x) => [x]
  }

  /** The steps a create issues, in order: a failed `Begin` does not stop the
      insert, and exactly one of `Rollback` and `Commit` follows it. */
  function StepsIssued(o: StepOutcomes): (steps: seq<Step>)
    ensures |steps| == 3 && steps[0] == Begin && steps[1] == Insert
    ensures steps[2] == Rollback <==> o.insert.err.Some?
    ensures steps[2] == Commit <==> o.insert.err.None?
  {
    [Begin, Insert] + (if o.insert.err.Some? then [Rollback] else [Commit])
  }

  function OutcomeOf(o: StepOutcomes, s: Step): Option<Error> {
    match s
    case Begin => o.begin
    case Insert => o.insert.err
    case Rollback => o.rollback
    case Commit => o.commit
  }

  /** Reference definition: the errors of the failed steps among `steps`, in
      the order the steps were issued. */
  function FailedStepErrors(o: StepOutcomes, steps: seq<Step>): (es: seq<Error>)
    ensures |es| <= |steps|
    decreases |steps|
  {
    if |steps| == 0 then [] else ErrorsOf(OutcomeOf(o, steps[0])) + FailedStepErrors(o, steps[1..])
  }

  /** Begin, insert, then roll back on insert failure or commit on success. */
  function InsertInTransaction(o: StepOutcomes): (r: Created)
    ensures r.id == o.insert.id
    ensures |r.errs| <= 3
    ensures o.begin.Some? ==> |r.errs| >= 1 && r.errs[0] == o.begin.value
    ensures o.insert.err.Some? ==> o.insert.err.value in r.errs
  {
    var errs := ErrorsOf(o.begin);
    if o.insert.err.Some? then
      Created(o.insert.id, errs + [o.insert.err.value] + ErrorsOf(o.rollback))
    else
      Created(o.insert.id, errs + ErrorsOf(o.commit))
  }

  /** The collected errors are exactly those of the failed steps, in issue
      order; so the rollback error can only appear after an insert error, the
      commit error only without one. */
  lemma {:induction false} ErrorsAreFailedSteps(o: StepOutcomes)
    ensures InsertInTransaction(o).errs == FailedStepErrors(o, StepsIssued(o))
  {
    var steps := StepsIssued(o);
    assert steps[1..][1..][1..] == [];
    assert FailedStepErrors(o, steps[1..][1..][1..]) == [];
    assert FailedStepErrors(o, steps[1..][1..]) == ErrorsOf(OutcomeOf(o, steps[2]));
    assert FailedStepErrors(o, steps[1..]) == ErrorsOf(o.insert.err) + ErrorsOf(OutcomeOf(o, steps[2]));
  }

  /** A create reports no error exactly when every step it issued succeeded. */
  lemma CleanCreate(o: StepOutcomes)
    ensures InsertInTransaction(o).errs == [] <==>
      o.begin.None? && o.insert.err.None? && o.commit.None?
  {
  }
}
