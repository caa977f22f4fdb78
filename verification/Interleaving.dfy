/**
 * Many episodes over one set of buffers: what one episode sees does not depend
 * on the others (crates/rlmesh-adapters/src/stateful.rs, `FrameBuffers`).
 */
module Interleaving {
  import opened Wrappers
  import opened Plans
  import opened Episodes
  import opened FrameBuffers

  /** Every call the engine makes on the buffers. */
  datatype Op =
    | AdvanceOp(id: string, step: int)
    | AssembleOp(id: string, step: int, raw: RawObs)
    | ObserveOp(id: string, raw: RawObs)
    | RecordOp(id: string, step: int, row: Row)
    | ChunkOp(id: string, rows: seq<Row>)
    | EvictOp(id: string)
    | ClearOp

  datatype Reply = Input(payload: Result<Payload, ApplyError>) | Ack(done: Result<(), ApplyError>) | Silent

  /** What an operation does to its own episode. */
  ghost function OnCell(adapter: Adapter, repack: Repack, cell: Cell, op: Op): (Cell, Reply) {
    match op
    case AdvanceOp(_, step) => var (next, r) := Advance(cell, step); (next, Ack(r))
    case AssembleOp(_, step, raw) => var (next, r) := Assemble(adapter, repack, cell, raw, step); (next, Input(r))
    case ObserveOp(_, raw) => var (next, r) := Observe(adapter, cell, raw); (next, Ack(r))
    case RecordOp(_, step, row) => var (next, r) := Record(adapter, cell, row, step); (next, Ack(r))
    case ChunkOp(_, rows) => var (next, r) := RecordFrom(adapter, cell, rows, ChunkStart(cell)); (next, Ack(r))
    case EvictOp(_) => (None, Silent)
    case ClearOp => (None, Silent)
  }

  /** What an operation does to the buffers. */
  ghost function OnBuffers(adapter: Adapter, repack: Repack, inner: Buffers, op: Op): (Buffers, Reply) {
    if op.ClearOp? then (map[], Silent)
    else
      var (cell, reply) := OnCell(adapter, repack, Get(inner, op.id), op);
      (Put(inner, op.id, cell), reply)
  }

  /** The class performs each operation as specified. */
  method Perform(adapter: Adapter, repack: Repack, op: Op, buffers: FrameBuffers) returns (reply: Reply)
    modifies buffers
    ensures (buffers.inner, reply) == OnBuffers(adapter, repack, old(buffers.inner), op)
  {
    hide Advance, Assemble, Observe, Record, RecordFrom, ChunkStart;
    match op {
      case AdvanceOp(id, step) =>
        var r := buffers.AdvanceStep(id, step);
        reply := Ack(r);
      case AssembleOp(id, step, raw) =>
        var r := AssembleObs(adapter, raw, id, step, buffers, repack);
        reply := Input(r);
      case ObserveOp(id, raw) =>
        var r := ObserveObs(adapter, raw, id, buffers);
        reply := Ack(r);
      case RecordOp(id, step, row) =>
        var r := RecordAction(adapter, row, id, step, buffers);
        reply := Ack(r);
      case ChunkOp(id, rows) =>
        var r := RecordChunk(adapter, rows, id, buffers);
        reply := Ack(r);
      case EvictOp(id) =>
        buffers.Evict(id);
        reply := Silent;
      case ClearOp =>
        buffers.Clear();
        reply := Silent;
    }
  }

  /** The buffers after a trace of operations on buffers that held nothing. */
  ghost function Held(adapter: Adapter, repack: Repack, ops: seq<Op>): Buffers
    decreases |ops|
  {
    if ops == [] then map[]
    else OnBuffers(adapter, repack, Held(adapter, repack, ops[..|ops| - 1]), ops[|ops| - 1]).0
  }

  /** The reply of the last operation of a trace. */
  ghost function LastReply(adapter: Adapter, repack: Repack, ops: seq<Op>): Reply
    requires ops != []
  {
    OnBuffers(adapter, repack, Held(adapter, repack, ops[..|ops| - 1]), ops[|ops| - 1]).1
  }

  /** The operation concerns the episode. */
  predicate Concerns(op: Op, id: string) {
    op.ClearOp? || op.id == id
  }

  /** The operations on one episode, and the clears. */
  ghost function Own(ops: seq<Op>, id: string): seq<Op>
    decreases |ops|
  {
    if ops == [] then []
    else
      var before := Own(ops[..|ops| - 1], id);
      if Concerns(ops[|ops| - 1], id) then before + [ops[|ops| - 1]] else before
  }

  /** One operation: another episode's leaves this one's cell alone, its own acts on nothing else. */
  lemma OneOp(adapter: Adapter, repack: Repack, inner: Buffers, op: Op, id: string)
    ensures Concerns(op, id) ==>
              Get(OnBuffers(adapter, repack, inner, op).0, id) == OnCell(adapter, repack, Get(inner, id), op).0
    ensures Concerns(op, id) ==> OnBuffers(adapter, repack, inner, op).1 == OnCell(adapter, repack, Get(inner, id), op).1
    ensures !Concerns(op, id) ==> Get(OnBuffers(adapter, repack, inner, op).0, id) == Get(inner, id)
  {
    hide Advance, Assemble, Observe, Record, RecordFrom, ChunkStart;
  }

  /** After every interleaving an episode holds what its own operations alone would leave. */
  lemma {:induction false} StateIsOwn(adapter: Adapter, repack: Repack, ops: seq<Op>, id: string)
    ensures Get(Held(adapter, repack, ops), id) == Get(Held(adapter, repack, Own(ops, id)), id)
    decreases |ops|
  {
    hide OnBuffers, OnCell;
    if ops != [] {
      var before, op := ops[..|ops| - 1], ops[|ops| - 1];
      var own := Own(before, id);
      StateIsOwn(adapter, repack, before, id);
      OneOp(adapter, repack, Held(adapter, repack, before), op, id);
      if Concerns(op, id) {
        OneOp(adapter, repack, Held(adapter, repack, own), op, id);
        assert (own + [op])[..|own|] == own;
      }
    }
  }

  /**
   * Episodes do not interfere: in every interleaving, each reply to an
   * operation on an episode is the reply its own operations alone would get.
   */
  lemma RepliesAreOwn(adapter: Adapter, repack: Repack, before: seq<Op>, op: Op, id: string)
    requires Concerns(op, id)
    ensures LastReply(adapter, repack, before + [op]) == LastReply(adapter, repack, Own(before, id) + [op])
  {
    hide OnBuffers, OnCell;
    var own := Own(before, id);
    assert (before + [op])[..|before|] == before && (own + [op])[..|own|] == own;
    StateIsOwn(adapter, repack, before, id);
    OneOp(adapter, repack, Held(adapter, repack, before), op, id);
    OneOp(adapter, repack, Held(adapter, repack, own), op, id);
  }

  /** The cell a trace leaves depends on the earlier trace only through the cell it started from. */
  lemma {:induction false} SameStart(
      adapter: Adapter, repack: Repack, before: seq<Op>, before': seq<Op>, after: seq<Op>, id: string)
    requires Get(Held(adapter, repack, before), id) == Get(Held(adapter, repack, before'), id)
    ensures Get(Held(adapter, repack, before + after), id) == Get(Held(adapter, repack, before' + after), id)
    decreases |after|
  {
    hide OnBuffers, OnCell;
    if after == [] {
      assert before + after == before && before' + after == before';
    } else {
      var rest, op := after[..|after| - 1], after[|after| - 1];
      SameStart(adapter, repack, before, before', rest, id);
      var all, all' := before + after, before' + after;
      assert all[..|all| - 1] == before + rest && all'[..|all'| - 1] == before' + rest;
      OneOp(adapter, repack, Held(adapter, repack, before + rest), op, id);
      OneOp(adapter, repack, Held(adapter, repack, before' + rest), op, id);
    }
  }

  /** After its eviction an episode behaves as if it had never been seen. */
  lemma EvictionForgets(
      adapter: Adapter, repack: Repack, before: seq<Op>, after: seq<Op>, op: Op, id: string)
    requires Concerns(op, id)
    ensures LastReply(adapter, repack, before + [EvictOp(id)] + after + [op])
            == LastReply(adapter, repack, after + [op])
  {
    hide OnCell;
    var evicted := before + [EvictOp(id)];
    assert evicted[..|before|] == before;
    assert Get(Held(adapter, repack, evicted), id) == None by {
      OneOp(adapter, repack, Held(adapter, repack, before), EvictOp(id), id);
      Forgotten(adapter, repack, Get(Held(adapter, repack, before), id), id);
    }
    SameStart(adapter, repack, evicted, [], after, id);
    assert [] + after == after;
    var all, alone := evicted + after + [op], after + [op];
    assert all[..|all| - 1] == evicted + after && alone[..|alone| - 1] == after;
    OneOp(adapter, repack, Held(adapter, repack, evicted + after), op, id);
    OneOp(adapter, repack, Held(adapter, repack, after), op, id);
  }

  lemma Forgotten(adapter: Adapter, repack: Repack, cell: Cell, id: string)
    ensures OnCell(adapter, repack, cell, EvictOp(id)).0 == None
  {
  }

  /**
   * A step is refused exactly when the episode is held with a last step and this is
   * not the one after it; the refusal names that one and changes nothing.  An
   * accepted step is the episode's last step, and changes nothing else.
   */
  lemma StepRefusedIff(adapter: Adapter, repack: Repack, inner: Buffers, id: string, step: int)
    ensures var (next, reply) := OnBuffers(adapter, repack, inner, AdvanceOp(id, step));
            && reply.Ack?
            && (reply.done.Err? <==> exists last :: id in inner && inner[id].lastStep == Some(last) && step != last + 1)
            && (reply.done.Err? ==> next == inner && reply.done.error == NotConsecutive(inner[id].lastStep.value + 1))
            && (reply.done.Ok? ==> id in next && next[id].lastStep == Some(step))
            && (reply.done.Ok? && id in inner ==>
                  next == inner[id := Episode(inner[id].windows, Some(step), inner[id].actions, inner[id].firstStep)])
            && (reply.done.Ok? && id !in inner ==> next == inner[id := Episode(map[], Some(step), map[], None)])
  {
  }
}
