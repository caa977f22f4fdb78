/**
 * One episode's run among the calls on shared buffers
 * (crates/rlmesh-adapters/src/stateful.rs, `FrameBuffers` and the per-lane seam):
 * what its own calls since it was last evicted leave is what its run leaves.
 */
module Lifetimes {
  import opened Wrappers
  import opened Plans
  import opened Episodes
  import opened FrameBuffers
  import opened Runs
  import opened HorizonInvariance
  import opened Interleaving

  /** The calls a run of an episode makes: an env step advances, then assembles or observes. */
  ghost function Calls(id: string, first: int, events: seq<Event>): seq<Op>
    decreases |events|
  {
    if events == [] then []
    else
      var before := events[..|events| - 1];
      var step := first + Ticks(before);
      Calls(id, first, before)
      + match events[|events| - 1] {
          case Tick(assemble, raw) =>
            [AdvanceOp(id, step), if assemble then AssembleOp(id, step, raw) else ObserveOp(id, raw)]
          case Chunk(rows) => [ChunkOp(id, rows)]
        }
  }

  /** Every run takes its steps in order, whatever fails in them. */
  lemma {:induction false} StepsInOrder(adapter: Adapter, repack: Repack, first: int, events: seq<Event>)
    ensures OrDefault(After(adapter, repack, first, events)).lastStep
            == if Ticks(events) == 0 then None else Some(first + Ticks(events) - 1)
    decreases |events|
  {
    hide AssembleAfterRead, Observe, ReadPrevious, RecordFrom, ChunkStart;
    if events != [] {
      var before := events[..|events| - 1];
      StepsInOrder(adapter, repack, first, before);
      var cell := After(adapter, repack, first, before);
      match events[|events| - 1]
      case Chunk(rows) => RecordKeepsWindows(adapter, cell, rows, ChunkStart(cell));
      case Tick(assemble, raw) =>
        var step := first + Ticks(before);
        var advanced := Advance(cell, step).0;
        ReadKeepsWindows(adapter, advanced, step);
        var (read, r) := ReadPrevious(adapter, advanced, step);
        TickKeepsStep(adapter, repack, advanced, raw, None);
        if r.Ok? {
          TickKeepsStep(adapter, repack, read, raw, r.value);
        }
    }
  }

  /** One call more. */
  lemma OneCall(adapter: Adapter, repack: Repack, ops: seq<Op>, op: Op, id: string)
    requires Concerns(op, id)
    ensures Get(Held(adapter, repack, ops + [op]), id) == OnCell(adapter, repack, Get(Held(adapter, repack, ops), id), op).0
  {
    hide OnBuffers, OnCell;
    assert (ops + [op])[..|ops|] == ops;
    OneOp(adapter, repack, Held(adapter, repack, ops), op, id);
  }

  /** The calls of a run, failed events included, leave what the run leaves. */
  lemma {:induction false} CallsAreTheRun(adapter: Adapter, repack: Repack, id: string, first: int, events: seq<Event>)
    ensures Get(Held(adapter, repack, Calls(id, first, events)), id) == After(adapter, repack, first, events)
    decreases |events|
  {
    hide Held, Assemble, Observe, RecordFrom, ChunkStart;
    if events == [] {
      NoCalls(adapter, repack, id);
    } else {
      var before := events[..|events| - 1];
      CallsAreTheRun(adapter, repack, id, first, before);
      StepsInOrder(adapter, repack, first, before);
      var step, calls := first + Ticks(before), Calls(id, first, before);
      match events[|events| - 1]
      case Chunk(rows) => OneCall(adapter, repack, calls, ChunkOp(id, rows), id);
      case Tick(assemble, raw) =>
        var advance, look := AdvanceOp(id, step), if assemble then AssembleOp(id, step, raw) else ObserveOp(id, raw);
        OneCall(adapter, repack, calls, advance, id);
        OneCall(adapter, repack, calls + [advance], look, id);
        assert calls + [advance] + [look] == calls + [advance, look];
    }
  }

  lemma NoCalls(adapter: Adapter, repack: Repack, id: string)
    ensures Get(Held(adapter, repack, []), id) == None
  {
  }

  /** Between advancing and looking, an episode holds the frames and rows it held before. */
  lemma AboutToStep(adapter: Adapter, repack: Repack, id: string, first: int, events: seq<Event>)
    ensures var cell := Get(Held(adapter, repack, Calls(id, first, events) + [AdvanceOp(id, first + Ticks(events))]), id);
            var was := After(adapter, repack, first, events);
            OrDefault(cell).windows == OrDefault(was).windows && OrDefault(cell).actions == OrDefault(was).actions
  {
    hide Held, Run, Calls;
    CallsAreTheRun(adapter, repack, id, first, events);
    OneCall(adapter, repack, Calls(id, first, events), AdvanceOp(id, first + Ticks(events)), id);
  }

  /** The calls on an episode since it was last evicted or cleared. */
  ghost function Life(ops: seq<Op>, id: string): seq<Op>
    decreases |ops|
  {
    if ops == [] then []
    else
      var before, op := Life(ops[..|ops| - 1], id), ops[|ops| - 1];
      if !Concerns(op, id) then before
      else if op.ClearOp? || op.EvictOp? then []
      else before + [op]
  }

  /** After every interleaving an episode holds what the calls of its current life alone leave. */
  lemma {:induction false} LifeDecides(adapter: Adapter, repack: Repack, ops: seq<Op>, id: string)
    ensures Get(Held(adapter, repack, ops), id) == Get(Held(adapter, repack, Life(ops, id)), id)
    decreases |ops|
  {
    hide OnBuffers;
    if ops != [] {
      var before, op := ops[..|ops| - 1], ops[|ops| - 1];
      LifeDecides(adapter, repack, before, id);
      OneOp(adapter, repack, Held(adapter, repack, before), op, id);
      if Concerns(op, id) {
        OneCall(adapter, repack, Life(before, id), op, id);
      }
    }
  }

  // ----- The steps of a life

  ghost predicate Done(reply: Reply) {
    reply.Ack? && reply.done.Ok?
  }

  /** The steps accepted since the episode was last evicted or cleared. */
  ghost function Steps(adapter: Adapter, repack: Repack, ops: seq<Op>, id: string): seq<int>
    decreases |ops|
  {
    if ops == [] then []
    else
      var before, op := Steps(adapter, repack, ops[..|ops| - 1], id), ops[|ops| - 1];
      if !Concerns(op, id) then before
      else if op.ClearOp? || op.EvictOp? then []
      else if op.AdvanceOp? && Done(LastReply(adapter, repack, ops)) then before + [op.step]
      else before
  }

  /** Only advancing moves the step counter. */
  lemma OthersKeepStep(adapter: Adapter, repack: Repack, cell: Cell, op: Op)
    requires op.AssembleOp? || op.ObserveOp? || op.RecordOp? || op.ChunkOp?
    ensures OrDefault(OnCell(adapter, repack, cell, op).0).lastStep == OrDefault(cell).lastStep
  {
    hide AssembleAfterRead, Observe, ReadPrevious, RecordFrom, ChunkStart;
    match op
    case AssembleOp(_, step, raw) =>
      ReadKeepsWindows(adapter, cell, step);
      var (read, r) := ReadPrevious(adapter, cell, step);
      if r.Ok? {
        TickKeepsStep(adapter, repack, read, raw, r.value);
      }
    case ObserveOp(_, raw) => TickKeepsStep(adapter, repack, cell, raw, None);
    case RecordOp(_, step, row) =>
    case ChunkOp(_, rows) => RecordKeepsWindows(adapter, cell, rows, ChunkStart(cell));
  }

  /**
   * In every interleaving the steps accepted in one life of an episode are
   * consecutive, and the episode remembers the last of them.
   */
  lemma {:induction false} StepsAreConsecutive(adapter: Adapter, repack: Repack, ops: seq<Op>, id: string)
    ensures var steps := Steps(adapter, repack, ops, id);
            && (forall k :: 0 <= k < |steps| ==> steps[k] == steps[0] + k)
            && OrDefault(Get(Held(adapter, repack, ops), id)).lastStep == if steps == [] then None else Some(steps[|steps| - 1])
    decreases |ops|
  {
    hide OnBuffers, OnCell;
    if ops != [] {
      var before, op := ops[..|ops| - 1], ops[|ops| - 1];
      StepsAreConsecutive(adapter, repack, before, id);
      OneOp(adapter, repack, Held(adapter, repack, before), op, id);
      if Concerns(op, id) {
        var cell := Get(Held(adapter, repack, before), id);
        match op
        case AdvanceOp(_, step) => StepRefusedIff(adapter, repack, Held(adapter, repack, before), id, step);
        case EvictOp(_) => Gone(adapter, repack, cell, op);
        case ClearOp => Gone(adapter, repack, cell, op);
        case _ => OthersKeepStep(adapter, repack, cell, op);
      }
    }
  }

  lemma Gone(adapter: Adapter, repack: Repack, cell: Cell, op: Op)
    requires op.EvictOp? || op.ClearOp?
    ensures OnCell(adapter, repack, cell, op).0 == None
  {
  }

  /** The next step of a life is accepted exactly when it is its first or follows the last one accepted. */
  lemma NextStepAcceptedIff(adapter: Adapter, repack: Repack, ops: seq<Op>, id: string, step: int)
    ensures var steps := Steps(adapter, repack, ops, id);
            Done(LastReply(adapter, repack, ops + [AdvanceOp(id, step)]))
            <==> steps == [] || step == steps[0] + |steps|
  {
    hide OnBuffers;
    StepsAreConsecutive(adapter, repack, ops, id);
    StepRefusedIff(adapter, repack, Held(adapter, repack, ops), id, step);
    assert (ops + [AdvanceOp(id, step)])[..|ops|] == ops;
  }

  /** Asking for the next step and taking it is never refused, and numbers the steps of a life from 0. */
  lemma CountedStepIsAccepted(adapter: Adapter, repack: Repack, ops: seq<Op>, id: string)
    ensures var step, steps := NextStep(Get(Held(adapter, repack, ops), id)), Steps(adapter, repack, ops, id);
            && Done(LastReply(adapter, repack, ops + [AdvanceOp(id, step)]))
            && step == if steps == [] then 0 else steps[0] + |steps|
  {
    hide Held, LastReply;
    StepsAreConsecutive(adapter, repack, ops, id);
    NextStepAcceptedIff(adapter, repack, ops, id, NextStep(Get(Held(adapter, repack, ops), id)));
  }
}
