/**
 * The chunk protocol: chunks are recorded where the queue of recorded actions
 * ends, and the env never steps past the recorded actions
 * (crates/rlmesh-adapters/src/stateful.rs, `chunk_start`, `previous_action`;
 * crates/rlmesh/src/model/engine.rs, `finish_route_frames_inner`).
 */
module ChunkProtocol {
  import opened Wrappers
  import opened Plans
  import opened Episodes
  import opened Runs

  /** The actions of all chunks of a run, in the order they came back. */
  ghost function Actions(events: seq<Event>): seq<Row>
    decreases |events|
  {
    if events == [] then []
    else
      var last := events[|events| - 1];
      Actions(events[..|events| - 1]) + if last.Chunk? then last.rows else []
  }

  /** Some step of the run predicted. */
  ghost predicate HasPredicted(events: seq<Event>)
    decreases |events|
  {
    events != [] &&
    (HasPredicted(events[..|events| - 1]) || (events[|events| - 1].Tick? && events[|events| - 1].assemble))
  }

  /** Before every env step after the first an action was recorded for the step before, and chunks answer observations. */
  ghost predicate KeepsUp(events: seq<Event>)
    decreases |events|
  {
    events == [] ||
    var before := events[..|events| - 1];
    && KeepsUp(before)
    && if events[|events| - 1].Tick? then Ticks(before) <= |Actions(before)| || Ticks(before) == 0
       else Ticks(before) >= 1
  }

  /** The step whose row is the oldest the log still holds. */
  ghost function OldestKept(first: int, events: seq<Event>): int
    decreases |events|
  {
    if events == [] then first
    else
      var before := events[..|events| - 1];
      var last := events[|events| - 1];
      if last.Tick? && last.assemble && HasPredicted(before) then first + Ticks(before) - 1
      else OldestKept(first, before)
  }

  /** The log holds exactly the rows from the oldest kept on, each the action of its step. */
  ghost predicate LogHolds(actions: map<int, Row>, first: int, from: int, rows: seq<Row>) {
    && first <= from <= first + |rows|
    && (forall k :: k in actions <==> from <= k < first + |rows|)
    && forall k :: k in actions ==> actions[k] == rows[k - first]
  }

  /** What the protocol's invariant needs to know of a run. */
  datatype Tally = Tally(ticks: nat, predicted: bool, oldest: int, rows: seq<Row>)

  ghost function TallyOf(first: int, events: seq<Event>): Tally {
    Tally(Ticks(events), HasPredicted(events), OldestKept(first, events), Actions(events))
  }

  ghost function Counted(first: int, t: Tally, event: Event): Tally {
    match event
    case Tick(assemble, _) =>
      Tally(t.ticks + 1, t.predicted || assemble,
            if assemble && t.predicted then first + t.ticks - 1 else t.oldest, t.rows)
    case Chunk(rows) => t.(rows := t.rows + rows)
  }

  lemma TallyGrows(first: int, events: seq<Event>)
    requires events != []
    ensures TallyOf(first, events) == Counted(first, TallyOf(first, events[..|events| - 1]), events[|events| - 1])
  {
  }

  /** The event is one the protocol allows next. */
  ghost predicate Allowed(t: Tally, event: Event) {
    if event.Tick? then t.ticks <= |t.rows| || t.ticks == 0 else t.ticks >= 1
  }

  ghost predicate InProtocol(cell: Cell, first: int, t: Tally) {
    && (cell.None? <==> t.ticks == 0)
    && OrDefault(cell).lastStep == (if t.ticks == 0 then None else Some(first + t.ticks - 1))
    && (OrDefault(cell).firstStep.Some? <==> t.predicted)
    && (t.predicted ==> OrDefault(cell).firstStep.value < first + t.ticks)
    && LogHolds(OrDefault(cell).actions, first, t.oldest, t.rows)
    && t.oldest <= first + (if t.ticks <= 1 then 0 else t.ticks - 2)
    && (t.ticks > 0 ==> t.ticks - 1 <= |t.rows|)
    && (t.ticks == 0 ==> t.rows == [] && !t.predicted)
  }

  /** Recording a chunk adds its rows under consecutive steps and nothing else. */
  lemma {:induction false} RecordAdds(adapter: Adapter, cell: Cell, rows: seq<Row>, start: int)
    requires adapter.ReadsPrevious() && RecordFrom(adapter, cell, rows, start).1.Ok?
    ensures var next := RecordFrom(adapter, cell, rows, start).0;
            && (cell.Some? ==> next.Some?)
            && OrDefault(next) == OrDefault(cell).(actions := OrDefault(next).actions)
            && (forall k :: k in OrDefault(next).actions <==> k in OrDefault(cell).actions || start <= k < start + |rows|)
            && (forall k :: start <= k < start + |rows| ==> OrDefault(next).actions[k] == rows[k - start])
            && forall k :: k in OrDefault(cell).actions && !(start <= k < start + |rows|) ==>
                 OrDefault(next).actions[k] == OrDefault(cell).actions[k]
    decreases |rows|
  {
    if rows != [] {
      var next := Record(adapter, cell, rows[0], start).0;
      RecordAdds(adapter, next, rows[1..], start + 1);
    }
  }

  /** Where the queue ends: one past the last action returned. */
  lemma ChunkStartIsQueueEnd(cell: Cell, first: int, t: Tally)
    requires InProtocol(cell, first, t) && t.ticks >= 1
    ensures ChunkStart(cell) == first + |t.rows|
  {
    var actions := cell.value.actions;
    if actions == map[] {
      assert t.oldest !in actions;
    } else {
      assert LastOf(actions.Keys) in actions;
      assert first + |t.rows| - 1 in actions;
    }
  }

  /** A chunk may start here: past every recorded row, and not before the observed step. */
  ghost predicate MayStart(cell: Cell, step: int) {
    && (OrDefault(cell).lastStep.Some? ==> OrDefault(cell).lastStep.value <= step)
    && (OrDefault(cell).lastStep.None? ==> 0 <= step)
    && forall k :: k in OrDefault(cell).actions ==> k < step
  }

  /** In any state whatever a chunk starts at the first step it may. */
  lemma ChunkStartIsFirst(cell: Cell)
    ensures MayStart(cell, ChunkStart(cell))
    ensures forall step :: MayStart(cell, step) ==> ChunkStart(cell) <= step
  {
    if cell.Some? && cell.value.actions != map[] {
      assert LastOf(cell.value.actions.Keys) in cell.value.actions;
    }
  }

  lemma ChunkInProtocol(adapter: Adapter, cell: Cell, first: int, t: Tally, rows: seq<Row>)
    requires adapter.ReadsPrevious() && InProtocol(cell, first, t) && Allowed(t, Chunk(rows))
    requires !DoChunk(adapter, cell, rows).1.Failed?
    ensures InProtocol(DoChunk(adapter, cell, rows).0, first, Counted(first, t, Chunk(rows)))
  {
    hide RecordFrom, ChunkStart;
    ChunkStartIsQueueEnd(cell, first, t);
    RecordAdds(adapter, cell, rows, ChunkStart(cell));
  }

  /** What an assembled step reads: nothing at the first one, then the action of the step before. */
  lemma ReadInProtocol(adapter: Adapter, cell: Cell, first: int, t: Tally)
    requires adapter.ReadsPrevious() && InProtocol(cell, first, t)
    requires t.ticks <= |t.rows| || t.ticks == 0
    ensures var step := first + t.ticks;
            var (read, r) := ReadPrevious(adapter, Advance(cell, step).0, step);
            && Advance(cell, step).1.Ok?
            && read.Some? && read.value.lastStep == Some(step)
            && read.value.firstStep.Some? && read.value.firstStep.value <= step
            && (t.predicted ==> 1 <= t.ticks <= |t.rows|)
            && r == Ok(if t.predicted then Some(t.rows[t.ticks - 1]) else None)
            && LogHolds(read.value.actions, first, if t.predicted then step - 1 else t.oldest, t.rows)
  {
    if t.predicted {
      assert first + t.ticks - 1 in OrDefault(cell).actions;
    }
  }

  /** Assembling and observing leave the log, the counters and the first assembled step alone. */
  lemma PipelineKeepsLog(adapter: Adapter, repack: Repack, cell: Cell, raw: RawObs, previous: Option<Row>)
    requires cell.Some?
    ensures var next := AssembleAfterRead(adapter, repack, cell, raw, previous).0;
            next.Some? && next.value == cell.value.(windows := next.value.windows)
    ensures var next := Observe(adapter, cell, raw).0;
            next.Some? && next.value == cell.value.(windows := next.value.windows)
  {
    hide Transform, StackFrom, HistoryFrames, PushFrom;
  }

  lemma TickInProtocol(
      adapter: Adapter, repack: Repack, cell: Cell, first: int, t: Tally, assemble: bool, raw: RawObs)
    requires adapter.ReadsPrevious() && InProtocol(cell, first, t) && Allowed(t, Tick(assemble, raw))
    ensures var (next, outcome) := DoTick(adapter, repack, cell, first + t.ticks, assemble, raw);
            !outcome.Failed? ==> InProtocol(next, first, Counted(first, t, Tick(assemble, raw)))
  {
    hide AssembleAfterRead, Observe, ReadPrevious;
    var step := first + t.ticks;
    var advanced := Advance(cell, step).0;
    if assemble {
      ReadInProtocol(adapter, cell, first, t);
      var (read, r) := ReadPrevious(adapter, advanced, step);
      PipelineKeepsLog(adapter, repack, read, raw, r.value);
    } else {
      PipelineKeepsLog(adapter, repack, advanced, raw, None);
    }
  }

  /** The protocol's invariant, over every run of any mix of chunk lengths and leads. */
  lemma {:induction false} RunInProtocol(adapter: Adapter, repack: Repack, first: int, events: seq<Event>)
    requires adapter.ReadsPrevious() && KeepsUp(events) && Clean(adapter, repack, first, events)
    ensures InProtocol(After(adapter, repack, first, events), first, TallyOf(first, events))
    decreases |events|
  {
    hide DoTick, DoChunk, InProtocol;
    if events == [] {
      StartInProtocol(first);
    } else {
      var before := events[..|events| - 1];
      RunInProtocol(adapter, repack, first, before);
      TallyGrows(first, events);
      var cell := After(adapter, repack, first, before);
      match events[|events| - 1]
      case Tick(assemble, raw) => TickInProtocol(adapter, repack, cell, first, TallyOf(first, before), assemble, raw);
      case Chunk(rows) => ChunkInProtocol(adapter, cell, first, TallyOf(first, before), rows);
    }
  }

  lemma StartInProtocol(first: int)
    ensures InProtocol(None, first, TallyOf(first, []))
  {
  }

  /** The recorded actions whose steps are still to come. */
  ghost function Queued(events: seq<Event>): int {
    |Actions(events)| - (Ticks(events) - 1)
  }

  /**
   * Between events of every run that keeps up: the next chunk starts at the
   * observed step plus the rows still queued, past every recorded row, so no row
   * is ever overwritten; and the rows the log holds are the chunks' own actions,
   * each under its own step.
   */
  lemma ChunksConcatenate(adapter: Adapter, repack: Repack, first: int, events: seq<Event>)
    requires adapter.ReadsPrevious() && KeepsUp(events) && Clean(adapter, repack, first, events)
    requires Ticks(events) >= 1
    ensures var cell := After(adapter, repack, first, events);
            && cell.Some?
            && cell.value.lastStep == Some(first + Ticks(events) - 1)
            && ChunkStart(cell) == first + |Actions(events)| == cell.value.lastStep.value + Queued(events)
            && Queued(events) >= 0
            && (forall k :: k in cell.value.actions ==> k < ChunkStart(cell))
            && forall k :: k in cell.value.actions ==> first <= k && cell.value.actions[k] == Actions(events)[k - first]
  {
    hide Run, Clean, KeepsUp, ChunkStart;
    RunInProtocol(adapter, repack, first, events);
    ChunkStartIsQueueEnd(After(adapter, repack, first, events), first, TallyOf(first, events));
  }

  lemma {:induction false} PrefixOfRun(adapter: Adapter, repack: Repack, first: int, events: seq<Event>, n: nat)
    requires n <= |events| && KeepsUp(events) && Clean(adapter, repack, first, events)
    ensures KeepsUp(events[..n]) && Clean(adapter, repack, first, events[..n])
    ensures Actions(events[..n]) <= Actions(events) && Ticks(events[..n]) <= Ticks(events)
    decreases |events|
  {
    hide LastOutcome;
    if n == |events| {
      assert events[..n] == events;
    } else {
      var before := events[..|events| - 1];
      assert before[..n] == events[..n];
      PrefixOfRun(adapter, repack, first, before, n);
    }
  }

  /** A row the log still holds later in the run is the row it held before. */
  lemma NoRowIsOverwritten(adapter: Adapter, repack: Repack, first: int, events: seq<Event>, n: nat, k: int)
    requires adapter.ReadsPrevious() && KeepsUp(events) && Clean(adapter, repack, first, events)
    requires n <= |events|
    requires k in OrDefault(After(adapter, repack, first, events[..n])).actions
    requires k in OrDefault(After(adapter, repack, first, events)).actions
    ensures OrDefault(After(adapter, repack, first, events)).actions[k]
            == OrDefault(After(adapter, repack, first, events[..n])).actions[k]
  {
    hide Run, Clean, KeepsUp, ChunkStart, Actions;
    PrefixOfRun(adapter, repack, first, events, n);
    RunInProtocol(adapter, repack, first, events[..n]);
    RunInProtocol(adapter, repack, first, events);
  }

  /** The read an assembled step makes, whatever its outcome. */
  ghost function ReadAt(adapter: Adapter, repack: Repack, first: int, before: seq<Event>): Result<Option<Row>, ApplyError> {
    var step := first + Ticks(before);
    ReadPrevious(adapter, Advance(After(adapter, repack, first, before), step).0, step).1
  }

  /**
   * In every run that keeps up, the first assembled step reads the fill and
   * every later one, at step s, reads the action recorded for s - 1; the missing
   * row error does not occur.
   */
  lemma EveryStepReadsTheActionBefore(
      adapter: Adapter, repack: Repack, first: int, before: seq<Event>, raw: RawObs)
    requires adapter.ReadsPrevious() && Clean(adapter, repack, first, before)
    requires KeepsUp(before + [Tick(true, raw)])
    ensures HasPredicted(before) ==> 1 <= Ticks(before) <= |Actions(before)|
    ensures ReadAt(adapter, repack, first, before)
            == Ok(if HasPredicted(before) then Some(Actions(before)[Ticks(before) - 1]) else None)
  {
    hide Run, Clean, ReadPrevious;
    var events := before + [Tick(true, raw)];
    assert events[..|events| - 1] == before && events[|events| - 1] == Tick(true, raw);
    RunInProtocol(adapter, repack, first, before);
    ReadInProtocol(adapter, After(adapter, repack, first, before), first, TallyOf(first, before));
  }
}
