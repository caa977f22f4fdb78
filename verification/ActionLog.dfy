/**
 * The pruned action log against the unbounded one
 * (crates/rlmesh-adapters/src/stateful.rs, `previous_action` and `record_action`).
 */
module ActionLog {
  import opened Wrappers
  import opened Plans
  import opened Episodes

  /** The two calls that touch the log: recording an action and an assembled observation's read. */
  datatype LogOp = Recorded(step: int, row: Row) | Read(step: int)

  type ReadResult = Result<Option<Row>, ApplyError>

  /** What the log holds after the operations; every row has the width the plan reads. */
  ghost function Logged(adapter: Adapter, ops: seq<LogOp>): Cell
    requires adapter.ReadsPrevious()
    decreases |ops|
  {
    if ops == [] then None
    else
      var before := Logged(adapter, ops[..|ops| - 1]);
      match ops[|ops| - 1]
      case Recorded(step, row) => Record(adapter, before, row, step).0
      case Read(step) => PreviousAction(before, step).0
  }

  /** The unbounded log: the row last recorded for a step, over the whole trace. */
  ghost function LastRow(adapter: Adapter, ops: seq<LogOp>, step: int): Option<Row>
    decreases |ops|
  {
    if ops == [] then None
    else
      match ops[|ops| - 1]
      case Recorded(s, row) =>
        if s == step && |row| == adapter.inDim then Some(row) else LastRow(adapter, ops[..|ops| - 1], step)
      case Read(_) => LastRow(adapter, ops[..|ops| - 1], step)
  }

  /** The step of the first read of the trace. */
  ghost function FirstRead(ops: seq<LogOp>): Option<int>
    decreases |ops|
  {
    if ops == [] then None
    else
      var before := FirstRead(ops[..|ops| - 1]);
      if before.None? && ops[|ops| - 1].Read? then Some(ops[|ops| - 1].step) else before
  }

  /** What a read at the end of the trace gives if nothing is ever pruned. */
  ghost function Unpruned(adapter: Adapter, ops: seq<LogOp>, step: int): ReadResult {
    if FirstRead(ops) == None || FirstRead(ops) == Some(step) then Ok(None)
    else
      match LastRow(adapter, ops, step - 1)
      case Some(row) => Ok(Some(row))
      case None => Err(NoActionRecorded(step - 1))
  }

  /** No read of the trace is for a later step than `step`. */
  ghost predicate ReadsUpTo(ops: seq<LogOp>, step: int) {
    forall i :: 0 <= i < |ops| && ops[i].Read? ==> ops[i].step <= step
  }

  /** Reads never go back. */
  ghost predicate Forward(ops: seq<LogOp>) {
    forall i, j :: 0 <= i < j < |ops| && ops[i].Read? && ops[j].Read? ==> ops[i].step <= ops[j].step
  }

  /**
   * A read in any state: the fill where none was made before, or at the step of the
   * first; else the row of the step before, or an error that names that step.  It
   * remembers the first read's step, and drops the rows behind it.
   */
  lemma ReadGives(cell: Cell, step: int)
    ensures var episode := OrDefault(cell);
            var (next, r) := PreviousAction(cell, step);
            var fills := episode.firstStep.None? || episode.firstStep == Some(step);
            && (r == Ok(None) <==> fills)
            && (forall row :: r == Ok(Some(row)) <==> !fills && step - 1 in episode.actions && episode.actions[step - 1] == row)
            && (r.Err? ==> r.error == NoActionRecorded(step - 1))
            && next.Some? && next.value.windows == episode.windows && next.value.lastStep == episode.lastStep
            && next.value.firstStep == (if episode.firstStep.None? then Some(step) else episode.firstStep)
            && (forall k :: k in next.value.actions <==> k in episode.actions && (fills || step - 1 <= k))
            && forall k :: k in next.value.actions ==> next.value.actions[k] == episode.actions[k]
  {
  }

  /** The log agrees with the unbounded one on every row a later read could still want. */
  ghost predicate Faithful(adapter: Adapter, ops: seq<LogOp>, cell: Cell, from: int) {
    && OrDefault(cell).firstStep == FirstRead(ops)
    && (forall k :: k in OrDefault(cell).actions ==> LastRow(adapter, ops, k) == Some(OrDefault(cell).actions[k]))
    && forall k :: from <= k && LastRow(adapter, ops, k).Some? ==> k in OrDefault(cell).actions
  }

  /** The invariant: whatever step a forward reader may still ask for, its row survives. */
  lemma {:induction false} LogIsFaithful(adapter: Adapter, ops: seq<LogOp>, step: int)
    requires adapter.ReadsPrevious() && Forward(ops) && ReadsUpTo(ops, step)
    ensures Faithful(adapter, ops, Logged(adapter, ops), step - 1)
    decreases |ops|
  {
    if ops != [] {
      var before := ops[..|ops| - 1];
      match ops[|ops| - 1]
      case Recorded(s, row) =>
        LogIsFaithful(adapter, before, step);
      case Read(s) =>
        assert ops[|ops| - 1].Read?;
        assert s <= step;
        LogIsFaithful(adapter, before, s);
    }
  }

  /**
   * Pruning is invisible: a reader that never goes back gets what an unbounded
   * log would give, row, fill or missing-row error, after every trace.
   */
  lemma PruningIsInvisible(adapter: Adapter, ops: seq<LogOp>, step: int)
    requires adapter.ReadsPrevious() && Forward(ops) && ReadsUpTo(ops, step)
    ensures PreviousAction(Logged(adapter, ops), step).1 == Unpruned(adapter, ops, step)
  {
    LogIsFaithful(adapter, ops, step);
  }

  /** A row a read returns was recorded for exactly the step before it, and nothing replaced it since. */
  lemma {:induction false} LastRowWasRecorded(adapter: Adapter, ops: seq<LogOp>, step: int) returns (i: nat)
    requires LastRow(adapter, ops, step).Some?
    ensures i < |ops| && ops[i] == Recorded(step, LastRow(adapter, ops, step).value)
    ensures forall j :: i < j < |ops| && ops[j].Recorded? && ops[j].step == step ==> |ops[j].row| != adapter.inDim
    decreases |ops|
  {
    var last := ops[|ops| - 1];
    if last.Recorded? && last.step == step && |last.row| == adapter.inDim {
      i := |ops| - 1;
    } else {
      i := LastRowWasRecorded(adapter, ops[..|ops| - 1], step);
    }
  }

  lemma NeverAnotherStepsRow(adapter: Adapter, ops: seq<LogOp>, step: int) returns (i: nat)
    requires adapter.ReadsPrevious() && Forward(ops) && ReadsUpTo(ops, step)
    requires PreviousAction(Logged(adapter, ops), step).1.Ok? && PreviousAction(Logged(adapter, ops), step).1.value.Some?
    ensures i < |ops| && ops[i] == Recorded(step - 1, PreviousAction(Logged(adapter, ops), step).1.value.value)
    ensures forall j :: i < j < |ops| && ops[j].Recorded? && ops[j].step == step - 1 ==> |ops[j].row| != adapter.inDim
  {
    PruningIsInvisible(adapter, ops, step);
    i := LastRowWasRecorded(adapter, ops, step - 1);
  }

  /** Reading back does show the pruning, so the order of reads is needed. */
  lemma GoingBackShowsPruning(adapter: Adapter, row: Row)
    requires adapter.ReadsPrevious() && |row| == adapter.inDim
    ensures var ops := [Read(0), Recorded(0, row), Recorded(4, row), Read(5)];
            && PreviousAction(Logged(adapter, ops), 1).1 == Err(NoActionRecorded(0))
            && Unpruned(adapter, ops, 1) == Ok(Some(row))
  {
    var ops := [Read(0), Recorded(0, row), Recorded(4, row), Read(5)];
    assert ops[..3] == [Read(0), Recorded(0, row), Recorded(4, row)];
    assert ops[..3][..2] == [Read(0), Recorded(0, row)];
    assert ops[..3][..2][..1] == [Read(0)];
    assert ops[..3][..2][..1][..0] == [];
    var c1 := PreviousAction(None, 0).0;
    assert Logged(adapter, [Read(0)]) == c1;
    var c2 := Record(adapter, c1, row, 0).0;
    assert Logged(adapter, ops[..3][..2]) == c2;
    var c3 := Record(adapter, c2, row, 4).0;
    assert Logged(adapter, ops[..3]) == c3;
    assert FirstRead(ops[..3][..2]) == Some(0);
    assert FirstRead(ops[..3]) == Some(0);
    assert LastRow(adapter, ops[..3][..2], 0) == Some(row);
    assert LastRow(adapter, ops[..3], 0) == Some(row);
  }
}
