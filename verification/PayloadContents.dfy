/**
 * What a prediction hands to the model, input by input
 * (crates/rlmesh-adapters/src/apply/obs.rs, `transform_obs`;
 * crates/rlmesh-adapters/src/stateful.rs, `assemble_obs`).
 */
module PayloadContents {
  import opened Wrappers
  import opened Tensors
  import opened Paths
  import opened Plans
  import opened Episodes
  import opened Runs
  import opened WindowTracking
  import opened HorizonInvariance
  import opened ChunkProtocol
  import opened PayloadInvariance

  /** The input's pipeline fails on the observation and the action read. */
  ghost predicate Fails(plan: ObsPlan, raw: RawObs, read: Option<Row>) {
    match plan
    case Image(image) => image.apply(raw).None?
    case State(_, _, state) => state(raw, read).None?
    case Other(_, other) => other(raw).None?
  }

  /** The input's slot holds what its pipeline made of them; only a text or custom input may leave it out. */
  ghost predicate Holds(payload: Payload, plan: ObsPlan, raw: RawObs, read: Option<Row>) {
    var p := plan.Placement();
    match plan
    case Image(image) => p in payload && image.apply(raw) == Some(payload[p])
    case State(_, _, state) => p in payload && state(raw, read) == Some(payload[p])
    case Other(_, other) => if p in payload then other(raw) == Some(Some(payload[p])) else other(raw) == Some(None)
  }

  /** Every slot filled is one of the first `n` inputs' own. */
  ghost predicate NothingElse(payload: Payload, plans: seq<ObsPlan>, n: nat)
    requires n <= |plans|
  {
    forall p :: p in payload ==> exists i :: 0 <= i < n && plans[i].Placement() == p
  }

  lemma PlaceHolds(payload: Payload, plan: ObsPlan, raw: RawObs, read: Option<Row>)
    requires plan.Placement() !in payload
    ensures var placed := Place(payload, plan, raw, read);
            && (placed.Err? <==> Fails(plan, raw, read))
            && (placed.Ok? ==> Holds(placed.value, plan, raw, read)
                               && forall p :: p in placed.value ==> p in payload || p == plan.Placement())
  {
  }

  lemma StillHolds(payload: Payload, next: Payload, plan: ObsPlan, raw: RawObs, read: Option<Row>)
    requires Holds(payload, plan, raw, read)
    requires var p := plan.Placement(); (p in next <==> p in payload) && (p in payload ==> next[p] == payload[p])
    ensures Holds(next, plan, raw, read)
  {
  }

  /** A transform succeeds exactly when every input's pipeline does, and fills each input's slot and no other. */
  lemma {:induction false} TransformHolds(plans: seq<ObsPlan>, n: nat, raw: RawObs, read: Option<Row>)
    requires n <= |plans| && DistinctPlacements(plans)
    ensures Transform(plans, n, raw, read).Ok? <==> forall i :: 0 <= i < n ==> !Fails(plans[i], raw, read)
    ensures Transform(plans, n, raw, read).Ok? ==>
              var payload := Transform(plans, n, raw, read).value;
              && (forall i :: 0 <= i < n ==> Holds(payload, plans[i], raw, read))
              && NothingElse(payload, plans, n)
  {
    hide Place, Holds, Fails;
    if n > 0 {
      TransformHolds(plans, n - 1, raw, read);
      if Transform(plans, n - 1, raw, read).Ok? {
        var before := Transform(plans, n - 1, raw, read).value;
        PlaceHolds(before, plans[n - 1], raw, read);
        var placed := Place(before, plans[n - 1], raw, read);
        if placed.Ok? {
          forall i | 0 <= i < n - 1 ensures Holds(placed.value, plans[i], raw, read) {
            PlaceOne(before, plans[n - 1], raw, read, plans[i].Placement());
            StillHolds(before, placed.value, plans[i], raw, read);
          }
        }
      }
    }
  }

  /** The transform leaves what is in the slot, or that it is empty. */
  ghost predicate LeavesAlone(repack: Repack, p: NodePath) {
    forall payload: Payload :: repack(payload).Some? ==>
      && (p in repack(payload).value <==> p in payload)
      && (p in payload ==> repack(payload).value[p] == payload[p])
  }

  /** Under any run: a slot that is neither stacked nor touched holds what its pipeline made of the last observation and the action read. */
  lemma PredictionHolds(adapter: Adapter, repack: Repack, first: int, events: seq<Event>, payload: Payload, i: nat)
    requires Sound(adapter) && Predicted(adapter, repack, first, events, payload)
    requires i < |adapter.plans| && !StacksInto(adapter, 0, adapter.plans[i].Placement())
    requires LeavesAlone(repack, adapter.plans[i].Placement())
    ensures var before, last := events[..|events| - 1], events[|events| - 1];
            && last.Tick? && ReadAt(adapter, repack, first, before).Ok?
            && Holds(payload, adapter.plans[i], last.raw, ReadAt(adapter, repack, first, before).value)
  {
    hide LastOutcome, Clean, Transform, ReadAt, Holds, StacksInto;
    PredictionOutside(adapter, repack, first, events, payload);
    var before, last := events[..|events| - 1], events[|events| - 1];
    var read := ReadAt(adapter, repack, first, before).value;
    TransformHolds(adapter.plans, |adapter.plans|, last.raw, read);
    var made := Transform(adapter.plans, |adapter.plans|, last.raw, read).value;
    StillHolds(made, payload, adapter.plans[i], last.raw, read);
  }

  /** An input that stacks no frames shares its slot with none that does. */
  lemma NotStacked(adapter: Adapter, i: nat)
    requires Sound(adapter) && i < |adapter.plans|
    requires adapter.plans[i].Image? ==> adapter.plans[i].image.stack <= 1
    ensures !StacksInto(adapter, 0, adapter.plans[i].Placement())
  {
    forall k | 0 <= k < |adapter.stacked| ensures adapter.stacked[k].placement != adapter.plans[i].Placement() {
      assert IsEntry(adapter.plans, adapter.stacked[k]);
      var at := adapter.stacked[k].planIndex;
      assert adapter.plans[at].Placement() == adapter.stacked[k].placement;
    }
  }

  /**
   * What the model sees of every input that stacks no frames, in a run that keeps
   * up: its own pipeline's value for the predicting step's observation, and for a
   * state input for the action recorded for the step before too, or the fill at the
   * first prediction.
   */
  lemma EveryInputIsItsPipelines(adapter: Adapter, repack: Repack, first: int, events: seq<Event>, payload: Payload, i: nat)
    requires adapter.Valid() && Predicted(adapter, repack, first, events, payload)
    requires adapter.ReadsPrevious() ==> KeepsUp(events)
    requires i < |adapter.plans| && LeavesAlone(repack, adapter.plans[i].Placement())
    ensures var before, last := events[..|events| - 1], events[|events| - 1];
            var p := adapter.plans[i].Placement();
            && last.Tick?
            && match adapter.plans[i]
               case Image(image) => image.stack <= 1 ==> p in payload && image.apply(last.raw) == Some(payload[p])
               case Other(_, other) =>
                 if p in payload then other(last.raw) == Some(Some(payload[p])) else other(last.raw) == Some(None)
               case State(_, reader, state) =>
                 && p in payload
                 && (reader ==> adapter.ReadsPrevious())
                 && if adapter.ReadsPrevious() && HasPredicted(before) then
                      && 1 <= Ticks(before) <= |Actions(before)|
                      && state(last.raw, Some(Actions(before)[Ticks(before) - 1])) == Some(payload[p])
                    else state(last.raw, None) == Some(payload[p])
  {
    hide LastOutcome, Clean, KeepsUp, Sound, ReadAt, Actions, HasPredicted, LeavesAlone, Repacked, AgreeOutside;
    ValidIsSound(adapter);
    PredictionOutside(adapter, repack, first, events, payload);
    var before, last := events[..|events| - 1], events[|events| - 1];
    if !(adapter.plans[i].Image? && adapter.plans[i].image.stack > 1) {
      NotStacked(adapter, i);
      PredictionHolds(adapter, repack, first, events, payload, i);
      if adapter.ReadsPrevious() {
        ReadsItsAction(adapter, repack, first, events, payload);
      } else {
        ReadsNothing(adapter, repack, first, before);
      }
      ReadsPreviousIff(adapter);
    }
  }

  lemma ReadsNothing(adapter: Adapter, repack: Repack, first: int, before: seq<Event>)
    requires !adapter.ReadsPrevious()
    ensures ReadAt(adapter, repack, first, before) == Ok(None)
  {
  }

  /**
   * A prediction after a clean run reports what stopped it: the action row it lacks,
   * or a pipeline that fails.
   */
  lemma PredictionReports(adapter: Adapter, repack: Repack, first: int, before: seq<Event>, raw: RawObs)
    requires Sound(adapter) && Clean(adapter, repack, first, before)
    ensures var outcome := LastOutcome(adapter, repack, first, before + [Tick(true, raw)]);
            match ReadAt(adapter, repack, first, before)
            case Err(e) => outcome == Failed(e)
            case Ok(read) =>
              (exists i :: 0 <= i < |adapter.plans| && Fails(adapter.plans[i], raw, read)) ==> outcome == Failed(PlanFailed)
  {
    hide Clean, StackFrom, Transform, Run, Sound, ReadPrevious, Fails;
    var events := before + [Tick(true, raw)];
    assert events[..|events| - 1] == before && events[|events| - 1] == Tick(true, raw);
    CleanRunOnTrack(adapter, repack, first, before);
    var cell, step := After(adapter, repack, first, before), first + Ticks(before);
    var (read, r) := ReadPrevious(adapter, Advance(cell, step).0, step);
    if r.Ok? && exists i :: 0 <= i < |adapter.plans| && Fails(adapter.plans[i], raw, r.value) {
      PipelinesDecide(adapter, raw, r.value);
    }
  }

  lemma PipelinesDecide(adapter: Adapter, raw: RawObs, read: Option<Row>)
    requires Sound(adapter) && exists i :: 0 <= i < |adapter.plans| && Fails(adapter.plans[i], raw, read)
    ensures Transform(adapter.plans, |adapter.plans|, raw, read) == Err(PlanFailed)
  {
    hide Fails, Transform;
    TransformHolds(adapter.plans, |adapter.plans|, raw, read);
    TransformFails(adapter.plans, |adapter.plans|, raw, read);
  }
}
