/**
 * The whole model input: what a prediction returns is decided by the steps'
 * observations and the action before it
 * (crates/rlmesh-adapters/src/stateful.rs, `assemble_obs`).
 */
module PayloadInvariance {
  import opened Wrappers
  import opened Tensors
  import opened Paths
  import opened Plans
  import opened Windows
  import opened Episodes
  import opened Runs
  import opened WindowTracking
  import opened HorizonInvariance
  import opened ChunkProtocol

  /** Some placement from the `j`-th on stacks into this slot. */
  ghost predicate StacksInto(adapter: Adapter, j: nat, p: NodePath) {
    exists k :: j <= k < |adapter.stacked| && adapter.stacked[k].placement == p
  }

  /** Two payloads with the same slots that agree wherever nothing is stacked. */
  ghost predicate AgreeOutside(adapter: Adapter, j: nat, a: Payload, b: Payload) {
    a.Keys == b.Keys && forall p :: p in a && !StacksInto(adapter, j, p) ==> a[p] == b[p]
  }

  lemma SlotTouchesItself(adapter: Adapter, windows: map<NodePath, seq<Tensor>>, payload: Payload, entry: StackedPlacement)
    ensures var done := StackSlot(adapter, windows, payload, entry);
            done.Go? ==> done.payload.Keys == payload.Keys
                         && forall p :: p in payload && p != entry.placement ==> done.payload[p] == payload[p]
  {
    hide PushInto, Gathered;
  }

  /** Stacking changes stacked slots and no others. */
  lemma {:induction false} StackingTouchesStackedSlots(
      adapter: Adapter, windows: map<NodePath, seq<Tensor>>, payload: Payload, j: nat)
    requires j <= |adapter.stacked| && StackFrom(adapter, windows, payload, j).1.Ok?
    ensures AgreeOutside(adapter, j, payload, StackFrom(adapter, windows, payload, j).1.value)
    decreases |adapter.stacked| - j
  {
    hide StackSlot;
    if j < |adapter.stacked| {
      var done := StackSlot(adapter, windows, payload, adapter.stacked[j]);
      SlotTouchesItself(adapter, windows, payload, adapter.stacked[j]);
      StackingTouchesStackedSlots(adapter, done.windows, done.payload, j + 1);
      var stacked := StackFrom(adapter, windows, payload, j).1.value;
      forall p | p in payload && !StacksInto(adapter, j, p) ensures payload[p] == stacked[p] {
        assert adapter.stacked[j].placement != p && !StacksInto(adapter, j + 1, p);
      }
    }
  }

  /** Outside the stacked slots a prediction returns what its own step's pipelines and transform made. */
  lemma PredictionOutside(adapter: Adapter, repack: Repack, first: int, events: seq<Event>, payload: Payload)
    requires Sound(adapter) && Predicted(adapter, repack, first, events, payload)
    ensures var before, last := events[..|events| - 1], events[|events| - 1];
            && last.Tick? && last.assemble
            && ReadAt(adapter, repack, first, before).Ok?
            && var made := Repacked(adapter, repack, last.raw, ReadAt(adapter, repack, first, before).value);
               made.Some? && AgreeOutside(adapter, 0, made.value, payload)
  {
    hide Clean, StackFrom, Transform, Run, Sound, ReadPrevious, AgreeOutside;
    var before, last := events[..|events| - 1], events[|events| - 1];
    match last
    case Chunk(rows) =>
    case Tick(assemble, raw) =>
      var cell, step := After(adapter, repack, first, before), first + Ticks(before);
      var (read, r) := ReadPrevious(adapter, Advance(cell, step).0, step);
      var made := Repacked(adapter, repack, raw, r.value);
      SamePayloadAgrees(adapter, made.value);
      if adapter.stacked != [] {
        StackingTouchesStackedSlots(adapter, WindowsOf(read), made.value, 0);
      }
  }

  lemma SamePayloadAgrees(adapter: Adapter, payload: Payload)
    ensures AgreeOutside(adapter, 0, payload, payload)
  {
  }

  /**
   * Two runs under one transform that leaves the stacked slots alone return equal
   * payloads wherever both predict, if they saw the same observations and read the
   * same action.
   */
  lemma SameReadsSamePayload(
      adapter: Adapter, repack: Repack, first: int, events: seq<Event>, payload: Payload,
      first': int, events': seq<Event>, payload': Payload)
    requires Sound(adapter)
    requires Predicted(adapter, repack, first, events, payload) && Predicted(adapter, repack, first', events', payload')
    requires forall j :: 0 <= j < |adapter.stacked| ==>
               Kept(adapter, repack, first, events, j) && Kept(adapter, repack, first', events', j)
    requires Raws(events) == Raws(events')
    requires ReadAt(adapter, repack, first, events[..|events| - 1]) == ReadAt(adapter, repack, first', events'[..|events'| - 1])
    ensures payload == payload'
  {
    hide Clean, LastOutcome, Sound, ReadAt, Repacked, Kept;
    PredictionOutside(adapter, repack, first, events, payload);
    PredictionOutside(adapter, repack, first', events', payload');
    assert Raws(events)[|Raws(events)| - 1] == events[|events| - 1].raw;
    assert Raws(events')[|Raws(events')| - 1] == events'[|events'| - 1].raw;
    forall p | p in payload ensures payload[p] == payload'[p] {
      if StacksInto(adapter, 0, p) {
        var j :| 0 <= j < |adapter.stacked| && adapter.stacked[j].placement == p;
        MarksDoNotMatter(adapter, repack, first, events, payload, repack, first', events', payload', j);
      }
    }
  }

  /** The action recorded for the step before the next one, once some step has predicted. */
  ghost function ActionBefore(before: seq<Event>): Option<Row> {
    if HasPredicted(before) && 1 <= Ticks(before) <= |Actions(before)| then Some(Actions(before)[Ticks(before) - 1]) else None
  }

  /**
   * For runs that keep up: the observations, and the action recorded for the step before,
   * decide the whole payload, whatever was predicted at and however the actions
   * were chunked.
   */
  lemma ObservationsAndActionDecide(
      adapter: Adapter, repack: Repack, first: int, events: seq<Event>, payload: Payload,
      first': int, events': seq<Event>, payload': Payload)
    requires Sound(adapter) && adapter.ReadsPrevious()
    requires Predicted(adapter, repack, first, events, payload) && Predicted(adapter, repack, first', events', payload')
    requires forall j :: 0 <= j < |adapter.stacked| ==>
               Kept(adapter, repack, first, events, j) && Kept(adapter, repack, first', events', j)
    requires KeepsUp(events) && KeepsUp(events') && Raws(events) == Raws(events')
    requires ActionBefore(events[..|events| - 1]) == ActionBefore(events'[..|events'| - 1])
    ensures payload == payload'
  {
    hide LastOutcome, Sound, Kept, KeepsUp, ActionBefore;
    ReadsItsAction(adapter, repack, first, events, payload);
    ReadsItsAction(adapter, repack, first', events', payload');
    SameReadsSamePayload(adapter, repack, first, events, payload, first', events', payload');
  }

  lemma ReadsItsAction(adapter: Adapter, repack: Repack, first: int, events: seq<Event>, payload: Payload)
    requires Sound(adapter) && adapter.ReadsPrevious() && KeepsUp(events)
    requires Predicted(adapter, repack, first, events, payload)
    ensures var before := events[..|events| - 1];
            && (HasPredicted(before) ==> 1 <= Ticks(before) <= |Actions(before)|)
            && ReadAt(adapter, repack, first, before) == Ok(ActionBefore(before))
  {
    hide Sound, KeepsUp, LastOutcome, ReadAt, Repacked, AgreeOutside, Actions, HasPredicted;
    var before, last := events[..|events| - 1], events[|events| - 1];
    PredictionOutside(adapter, repack, first, events, payload);
    assert events == before + [Tick(true, last.raw)];
    EveryStepReadsTheActionBefore(adapter, repack, first, before, last.raw);
  }
}
