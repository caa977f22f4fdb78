/**
 * The episode-keyed buffers a route holds, updated in place
 * (crates/rlmesh-adapters/src/stateful.rs, `FrameBuffers` and the per-lane seam).
 */
module FrameBuffers {
  import opened Wrappers
  import opened Sets
  import opened Sums
  import opened Tensors
  import opened Values
  import opened Paths
  import opened Plans
  import opened Windows
  import opened Episodes

  type Buffers = map<string, Episode>

  function Get(inner: Buffers, id: string): Cell {
    if id in inner then Some(inner[id]) else None
  }

  function Put(inner: Buffers, id: string, cell: Cell): Buffers {
    if cell.Some? then inner[id := cell.value] else inner - {id}
  }

  function FramesBytes(frames: seq<Tensor>): nat {
    if frames == [] then 0 else FramesBytes(frames[..|frames| - 1]) + frames[|frames| - 1].NBytes()
  }

  const F32_BYTES := 4

  ghost function WindowBytes(windows: map<NodePath, seq<Tensor>>): nat {
    Total(map p | p in windows :: FramesBytes(windows[p]))
  }

  ghost function LogBytes(actions: map<int, Row>): nat {
    Total(map k | k in actions :: |actions[k]| * F32_BYTES)
  }

  ghost function EpisodeBytes(episode: Episode): nat {
    WindowBytes(episode.windows) + LogBytes(episode.actions)
  }

  ghost function StateBytes(inner: Buffers): nat {
    Total(map id | id in inner :: EpisodeBytes(inner[id]))
  }

  lemma BytesWithout(inner: Buffers, id: string)
    requires id in inner
    ensures StateBytes(inner) == EpisodeBytes(inner[id]) + StateBytes(inner - {id})
  {
    hide EpisodeBytes;
    var sizes := map i | i in inner :: EpisodeBytes(inner[i]);
    TotalWithout(sizes, id);
    Remove(inner, id);
    assert sizes - {id} == map i | i in inner - {id} :: EpisodeBytes((inner - {id})[i]);
  }

  lemma EmptyBytes()
    ensures StateBytes(map[]) == 0
  {
    var empty: Buffers := map[];
    assert (map id | id in empty :: EpisodeBytes(empty[id])) == map[];
  }

  /** Total a map's values key by key. */
  method SumOf<K(==)>(m: map<K, nat>) returns (sum: nat)
    ensures sum == Total(m)
  {
    sum := 0;
    var left := m;
    while left != map[]
      invariant sum + Total(left) == Total(m)
      decreases |left|
    {
      assert left.Keys != {};
      var k := Take(left.Keys);
      TotalWithout(left, k);
      Remove(left, k);
      sum := sum + left[k];
      left := left - {k};
    }
  }

  /** Bytes held by one episode's frame and action windows. */
  method SumEpisode(episode: Episode) returns (bytes: nat)
    ensures bytes == EpisodeBytes(episode)
  {
    var frames := SumOf(map p | p in episode.windows :: FramesBytes(episode.windows[p]));
    var rows := SumOf(map k | k in episode.actions :: |episode.actions[k]| * F32_BYTES);
    bytes := frames + rows;
  }

  class FrameBuffers {
    var inner: Buffers

    constructor ()
      ensures inner == map[]
    {
      inner := map[];
    }

    method Evict(id: string)
      modifies this
      ensures inner == Put(old(inner), id, None)
    {
      inner := inner - {id};
    }

    method Clear()
      modifies this
      ensures inner == map[]
    {
      inner := map[];
    }

    method Holds(id: string) returns (held: bool)
      ensures held <==> Get(inner, id).Some?
    {
      held := id in inner;
    }

    method LastStep(id: string) returns (last: Option<int>)
      ensures last == OrDefault(Get(inner, id)).lastStep
    {
      last := if id in inner then inner[id].lastStep else None;
    }

    /** A caller that stamps no steps numbers an episode's frames from 0. */
    method CountStep(id: string) returns (step: int)
      ensures step == NextStep(Get(inner, id))
    {
      var last := LastStep(id);
      step := if last.Some? then last.value + 1 else 0;
    }

    /** Past every recorded row, and not before the observed step. */
    method ChunkStep(id: string) returns (start: int)
      ensures start == ChunkStart(Get(inner, id))
    {
      var held := Holds(id);
      if !held {
        return 0;
      }
      var episode := inner[id];
      start := if episode.lastStep.Some? then episode.lastStep.value else 0;
      ghost var observed := start;
      var steps := episode.actions.Keys;
      while steps != {}
        invariant steps <= episode.actions.Keys
        invariant observed <= start
        invariant forall k :: k in episode.actions && k !in steps ==> k < start
        invariant start == observed || start - 1 in episode.actions
        decreases |steps|
      {
        var k := Take(steps);
        steps := steps - {k};
        if start < k + 1 {
          start := k + 1;
        }
      }
      if episode.actions != map[] {
        assert LastOf(episode.actions.Keys) in episode.actions;
      }
    }

    /** What all episodes together occupy, summed one episode at a time. */
    method HeldBytes() returns (bytes: nat)
      ensures bytes == StateBytes(inner)
    {
      hide StateBytes, EpisodeBytes;
      EmptyBytes();
      bytes := 0;
      var left := inner;
      while left != map[]
        invariant left.Keys <= inner.Keys && forall id :: id in left ==> left[id] == inner[id]
        invariant bytes + StateBytes(left) == StateBytes(inner)
        decreases |left|
      {
        assert left.Keys != {};
        var id := Take(left.Keys);
        var held := SumEpisode(left[id]);
        BytesWithout(left, id);
        Remove(left, id);
        bytes := bytes + held;
        left := left - {id};
      }
    }

    /** Hold a history-delivering runtime to consecutive steps. */
    method AdvanceStep(id: string, step: int) returns (r: Result<(), ApplyError>)
      modifies this
      ensures var (cell, result) := Advance(old(Get(inner, id)), step);
              inner == Put(old(inner), id, cell) && r == result
      ensures r.Err? ==> inner == old(inner)
    {
      if id !in inner {
        inner := inner[id := FRESH];
      }
      var episode := inner[id];
      if episode.lastStep.Some? && step != episode.lastStep.value + 1 {
        return Err(NotConsecutive(episode.lastStep.value + 1));
      }
      inner := inner[id := episode.(lastStep := Some(step))];
      return Ok(());
    }

    /** Look up the row before `step`, forgetting the older ones. */
    method ReadAction(id: string, step: int) returns (r: Result<Option<Row>, ApplyError>)
      modifies this
      ensures var (cell, result) := PreviousAction(old(Get(inner, id)), step);
              inner == Put(old(inner), id, cell) && r == result
    {
      if id !in inner {
        inner := inner[id := FRESH];
      }
      if inner[id].firstStep.None? {
        inner := inner[id := inner[id].(firstStep := Some(step))];
      }
      if inner[id].firstStep.value == step {
        return Ok(None);
      }
      var wanted := step - 1;
      inner := inner[id := inner[id].(actions := RetainFrom(inner[id].actions, wanted))];
      if wanted in inner[id].actions {
        return Ok(Some(inner[id].actions[wanted]));
      }
      return Err(NoActionRecorded(wanted));
    }
  }

  /** Move one frame into its window, opening the window if this is its first. */
  method PushFrame(adapter: Adapter, entry: StackedPlacement, id: string, frame: Tensor, buffers: FrameBuffers)
    returns (r: Result<(), ApplyError>, window: Window)
    requires id in buffers.inner
    modifies buffers
    ensures id in buffers.inner
    ensures var (windows, result) := PushInto(adapter, old(buffers.inner[id].windows), entry, frame);
            && buffers.inner == old(buffers.inner)[id := old(buffers.inner[id]).(windows := windows)]
            && r == result
    ensures fresh(window) && window.frames == buffers.inner[id].windows[entry.placement]
  {
    var episode := buffers.inner[id];
    var held := if entry.placement in episode.windows then episode.windows[entry.placement] else [];
    window := new Window(held);
    var image := adapter.ImageOf(entry);
    if image.None? {
      r := Err(NotAnImage);
    } else {
      r := window.Push(frame, entry, image.value);
    }
    buffers.inner := buffers.inner[id := episode.(windows := episode.windows[entry.placement := window.frames])];
  }

  /** Read, transform, repack and stack: everything a prediction of one episode needs. */
  method AssembleObs(adapter: Adapter, raw: RawObs, id: string, step: int, buffers: FrameBuffers, repack: Repack)
    returns (r: Result<Payload, ApplyError>)
    modifies buffers
    ensures var (cell, result) := Assemble(adapter, repack, old(Get(buffers.inner, id)), raw, step);
            buffers.inner == Put(old(buffers.inner), id, cell) && r == result
  {
    hide Transform, StackFrom, PreviousAction;
    var previous: Result<Option<Row>, ApplyError> := Ok(None);
    if adapter.ReadsPrevious() {
      previous := buffers.ReadAction(id, step);
      if previous.Err? {
        return Err(previous.error);
      }
    }
    var transformed := Transform(adapter.plans, |adapter.plans|, raw, previous.value);
    if transformed.Err? {
      return Err(transformed.error);
    }
    var repacked := repack(transformed.value);
    if repacked.None? {
      return Err(PlanFailed);
    }
    if adapter.stacked == [] {
      return Ok(repacked.value);
    }
    r := StackInPlace(adapter, id, repacked.value, buffers);
  }

  /** Frame-stack every stacked placement of an assembled payload. */
  method StackInPlace(adapter: Adapter, id: string, assembled: Payload, buffers: FrameBuffers)
    returns (r: Result<Payload, ApplyError>)
    modifies buffers
    ensures var episode := OrDefault(old(Get(buffers.inner, id)));
            var (windows, result) := StackFrom(adapter, episode.windows, assembled, 0);
            && buffers.inner == old(buffers.inner)[id := episode.(windows := windows)]
            && r == result
  {
    hide StackSlot;
    if id !in buffers.inner {
      buffers.inner := buffers.inner[id := FRESH];
    }
    ghost var episode := buffers.inner[id];
    var payload := assembled;
    for j := 0 to |adapter.stacked|
      invariant id in buffers.inner
      invariant buffers.inner == old(buffers.inner)[id := episode.(windows := buffers.inner[id].windows)]
      invariant StackFrom(adapter, episode.windows, assembled, 0) == StackFrom(adapter, buffers.inner[id].windows, payload, j)
    {
      var stacked := StackOne(adapter, adapter.stacked[j], id, payload, buffers);
      if stacked.Err? {
        return stacked;
      }
      payload := stacked.value;
    }
    return Ok(payload);
  }

  /** Push one assembled frame and put the window's stack in its place. */
  method StackOne(adapter: Adapter, entry: StackedPlacement, id: string, payload: Payload, buffers: FrameBuffers)
    returns (r: Result<Payload, ApplyError>)
    requires id in buffers.inner
    modifies buffers
    ensures var slot := StackSlot(adapter, old(buffers.inner[id].windows), payload, entry);
            && buffers.inner == old(buffers.inner)[id := old(buffers.inner[id]).(windows := slot.windows)]
            && r == match slot { case Stop(_, e) => Err(e) case Go(_, next) => Ok(next) }
  {
    hide PushInto, Gathered;
    assert buffers.inner == buffers.inner[id := buffers.inner[id]];
    if entry.placement !in payload {
      return Err(MissingSlot);
    }
    if !payload[entry.placement].Dense? {
      return Err(NotATensor);
    }
    var pushed, window := PushFrame(adapter, entry, id, payload[entry.placement].tensor, buffers);
    if pushed.Err? {
      return Err(pushed.error);
    }
    var stack := window.Gather(entry);
    if stack.Err? {
      return Err(stack.error);
    }
    return Ok(payload[entry.placement := Dense(stack.value)]);
  }

  /** A step that predicts nothing still gives every window its frame. */
  method ObserveObs(adapter: Adapter, raw: RawObs, id: string, buffers: FrameBuffers)
    returns (r: Result<(), ApplyError>)
    modifies buffers
    ensures var (cell, result) := Observe(adapter, old(Get(buffers.inner, id)), raw);
            buffers.inner == Put(old(buffers.inner), id, cell) && r == result
  {
    hide PushInto, HistoryFrames;
    if adapter.stacked == [] {
      return Ok(());
    }
    var frames := HistoryFrames(adapter, raw, |adapter.stacked|);
    if frames.Err? {
      return Err(frames.error);
    }
    if id !in buffers.inner {
      buffers.inner := buffers.inner[id := FRESH];
    }
    ghost var episode := buffers.inner[id];
    for j := 0 to |adapter.stacked|
      invariant id in buffers.inner
      invariant buffers.inner == old(buffers.inner)[id := episode.(windows := buffers.inner[id].windows)]
      invariant PushFrom(adapter, episode.windows, frames.value, 0) == PushFrom(adapter, buffers.inner[id].windows, frames.value, j)
    {
      var pushed, _ := PushFrame(adapter, adapter.stacked[j], id, frames.value[j], buffers);
      if pushed.Err? {
        return pushed;
      }
    }
    return Ok(());
  }

  /** Keep an action under the step it is meant for. */
  method RecordAction(adapter: Adapter, row: Row, id: string, step: int, buffers: FrameBuffers)
    returns (r: Result<(), ApplyError>)
    modifies buffers
    ensures var (cell, result) := Record(adapter, old(Get(buffers.inner, id)), row, step);
            buffers.inner == Put(old(buffers.inner), id, cell) && r == result
  {
    if !adapter.ReadsPrevious() {
      return Ok(());
    }
    if |row| != adapter.inDim {
      return Err(RowWidth);
    }
    if id !in buffers.inner {
      buffers.inner := buffers.inner[id := FRESH];
    }
    var episode := buffers.inner[id];
    buffers.inner := buffers.inner[id := episode.(actions := episode.actions[step := row])];
    return Ok(());
  }

  /**
   * Record a returned chunk: action `k` under the step `k` past where the recorded
   * ones end (crates/rlmesh/src/model/engine.rs, `finish_route_frames_inner`).
   */
  method RecordChunk(adapter: Adapter, rows: seq<Row>, id: string, buffers: FrameBuffers)
    returns (r: Result<(), ApplyError>)
    modifies buffers
    ensures var before := old(Get(buffers.inner, id));
            var (cell, result) := RecordFrom(adapter, before, rows, ChunkStart(before));
            buffers.inner == Put(old(buffers.inner), id, cell) && r == result
  {
    hide ChunkStart;
    ghost var before := Get(buffers.inner, id);
    var start := buffers.ChunkStep(id);
    for k := 0 to |rows|
      invariant RecordFrom(adapter, before, rows, start) == RecordFrom(adapter, Get(buffers.inner, id), rows[k..], start + k)
      invariant buffers.inner == Put(old(buffers.inner), id, Get(buffers.inner, id))
    {
      assert rows[k..][1..] == rows[k + 1..];
      var recorded := RecordAction(adapter, rows[k], id, start + k, buffers);
      if recorded.Err? {
        return recorded;
      }
    }
    return Ok(());
  }
}
