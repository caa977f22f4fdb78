/** Whole runs of one episode: env steps that are assembled or only observed, and returned chunks. */
module Runs {
  import opened Wrappers
  import opened Plans
  import opened Episodes

  /** An env step, which predicts or only observes, or a chunk the model returned. */
  datatype Event =
    | Tick(assemble: bool, raw: RawObs)
    | Chunk(rows: seq<Row>)

  datatype Outcome = Assembled(payload: Payload) | Done | Failed(error: ApplyError)

  function Ticks(events: seq<Event>): nat {
    if events == [] then 0
    else Ticks(events[..|events| - 1]) + if events[|events| - 1].Tick? then 1 else 0
  }

  /** One env step: `advance_step`, then `assemble_obs` or `observe_obs`. */
  function DoTick(adapter: Adapter, repack: Repack, cell: Cell, step: int, assemble: bool, raw: RawObs): (Cell, Outcome) {
    var (advanced, r) := Advance(cell, step);
    if r.Err? then (advanced, Failed(r.error))
    else if assemble then
      var (next, payload) := Assemble(adapter, repack, advanced, raw, step);
      (next, if payload.Ok? then Assembled(payload.value) else Failed(payload.error))
    else
      var (next, done) := Observe(adapter, advanced, raw);
      (next, if done.Ok? then Done else Failed(done.error))
  }

  /** A returned chunk, recorded from `chunk_start` upward. */
  ghost function DoChunk(adapter: Adapter, cell: Cell, rows: seq<Row>): (Cell, Outcome) {
    var (next, r) := RecordFrom(adapter, cell, rows, ChunkStart(cell));
    (next, if r.Ok? then Done else Failed(r.error))
  }

  ghost function Do(adapter: Adapter, repack: Repack, cell: Cell, step: int, event: Event): (Cell, Outcome) {
    match event
    case Tick(assemble, raw) => DoTick(adapter, repack, cell, step, assemble, raw)
    case Chunk(rows) => DoChunk(adapter, cell, rows)
  }

  /** Run an episode the buffers did not hold; its env steps are numbered `first`, `first + 1`, ... */
  ghost function Run(adapter: Adapter, repack: Repack, first: int, events: seq<Event>): (Cell, seq<Outcome>)
    decreases |events|
  {
    if events == [] then (None, [])
    else
      var before := events[..|events| - 1];
      var (cell, outcomes) := Run(adapter, repack, first, before);
      var (next, outcome) := Do(adapter, repack, cell, first + Ticks(before), events[|events| - 1]);
      (next, outcomes + [outcome])
  }

  ghost function After(adapter: Adapter, repack: Repack, first: int, events: seq<Event>): Cell {
    Run(adapter, repack, first, events).0
  }

  /** What the last event of a run came to. */
  ghost function LastOutcome(adapter: Adapter, repack: Repack, first: int, events: seq<Event>): Outcome
    requires events != []
  {
    var before := events[..|events| - 1];
    Do(adapter, repack, After(adapter, repack, first, before), first + Ticks(before), events[|events| - 1]).1
  }

  /** No event of the run failed. */
  ghost predicate Clean(adapter: Adapter, repack: Repack, first: int, events: seq<Event>)
    decreases |events|
  {
    events == [] ||
    (!LastOutcome(adapter, repack, first, events).Failed?
     && Clean(adapter, repack, first, events[..|events| - 1]))
  }

  /** One event more. */
  lemma OneMoreEvent(adapter: Adapter, repack: Repack, first: int, events: seq<Event>, event: Event)
    ensures var (next, outcome) := Do(adapter, repack, After(adapter, repack, first, events), first + Ticks(events), event);
            && After(adapter, repack, first, events + [event]) == next
            && LastOutcome(adapter, repack, first, events + [event]) == outcome
            && (Clean(adapter, repack, first, events + [event]) <==> Clean(adapter, repack, first, events) && !outcome.Failed?)
            && Ticks(events + [event]) == Ticks(events) + if event.Tick? then 1 else 0
  {
    hide Do;
    assert (events + [event])[..|events|] == events;
  }
}
