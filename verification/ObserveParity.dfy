/**
 * When observing a step does to the windows what assembling it would
 * (crates/rlmesh-adapters/src/stateful.rs, `assemble_obs`, `observe_obs`): the
 * encoding transform runs only in the former.
 */
module ObserveParity {
  import opened Wrappers
  import opened Tensors
  import opened Values
  import opened Paths
  import opened Plans
  import opened Windows
  import opened Episodes
  import opened Runs
  import opened WindowTracking
  import opened HorizonInvariance

  lemma SlotPushes(adapter: Adapter, windows: map<NodePath, seq<Tensor>>, payload: Payload, frames: seq<Tensor>, j: nat)
    requires DistinctSlots(adapter) && j < |adapter.stacked| && Slots(adapter, payload, frames, j)
    requires StackSlot(adapter, windows, payload, adapter.stacked[j]).Go?
    ensures var done := StackSlot(adapter, windows, payload, adapter.stacked[j]);
            && PushInto(adapter, windows, adapter.stacked[j], frames[j]).0 == done.windows
            && PushInto(adapter, windows, adapter.stacked[j], frames[j]).1.Ok?
            && Slots(adapter, done.payload, frames, j + 1)
  {
    hide PushInto, Gathered;
  }

  /** Stacking leaves the windows that pushing the payload's frames would. */
  lemma {:induction false} StackingPushes(
      adapter: Adapter, windows: map<NodePath, seq<Tensor>>, payload: Payload, frames: seq<Tensor>, j: nat)
    requires DistinctSlots(adapter) && j <= |adapter.stacked| && Slots(adapter, payload, frames, j)
    requires StackFrom(adapter, windows, payload, j).1.Ok?
    ensures PushFrom(adapter, windows, frames, j).0 == StackFrom(adapter, windows, payload, j).0
    ensures PushFrom(adapter, windows, frames, j).1.Ok?
    decreases |adapter.stacked| - j
  {
    hide StackSlot, PushInto;
    if j < |adapter.stacked| {
      var done := StackSlot(adapter, windows, payload, adapter.stacked[j]);
      assert done.Go?;
      SlotPushes(adapter, windows, payload, frames, j);
      StackingPushes(adapter, done.windows, done.payload, frames, j + 1);
    }
  }

  /** Pushing touches no other slot, and the pushed frame is the newest. */
  lemma PushIsNewest(adapter: Adapter, windows: map<NodePath, seq<Tensor>>, entry: StackedPlacement, frame: Tensor)
    requires PushInto(adapter, windows, entry, frame).1.Ok?
    ensures var after := PushInto(adapter, windows, entry, frame).0;
            && entry.placement in after && after[entry.placement] != []
            && after[entry.placement][|after[entry.placement]| - 1] == frame
            && forall p :: p != entry.placement && p in windows ==> p in after && after[p] == windows[p]
  {
  }

  lemma {:induction false} PushesKeep(
      adapter: Adapter, windows: map<NodePath, seq<Tensor>>, frames: seq<Tensor>, j: nat, p: NodePath)
    requires j <= |adapter.stacked| == |frames| && PushFrom(adapter, windows, frames, j).1.Ok?
    requires p in windows && forall k :: j <= k < |adapter.stacked| ==> adapter.stacked[k].placement != p
    ensures var after := PushFrom(adapter, windows, frames, j).0; p in after && after[p] == windows[p]
    decreases |adapter.stacked| - j
  {
    hide PushInto;
    if j < |adapter.stacked| {
      PushIsNewest(adapter, windows, adapter.stacked[j], frames[j]);
      PushesKeep(adapter, PushInto(adapter, windows, adapter.stacked[j], frames[j]).0, frames, j + 1, p);
    }
  }

  /** After pushing one frame to each slot, each window's newest frame is the one pushed. */
  lemma {:induction false} PushesShow(
      adapter: Adapter, windows: map<NodePath, seq<Tensor>>, frames: seq<Tensor>, j: nat, k: nat)
    requires DistinctSlots(adapter) && j <= k < |adapter.stacked| == |frames|
    requires PushFrom(adapter, windows, frames, j).1.Ok?
    ensures var after, p := PushFrom(adapter, windows, frames, j).0, adapter.stacked[k].placement;
            p in after && after[p] != [] && after[p][|after[p]| - 1] == frames[k]
    decreases |adapter.stacked| - j
  {
    hide PushInto;
    var pushed := PushInto(adapter, windows, adapter.stacked[j], frames[j]).0;
    if k == j {
      PushIsNewest(adapter, windows, adapter.stacked[j], frames[j]);
      PushesKeep(adapter, pushed, frames, j + 1, adapter.stacked[j].placement);
    } else {
      PushesShow(adapter, pushed, frames, j + 1, k);
    }
  }

  lemma SamePushesIff(adapter: Adapter, windows: map<NodePath, seq<Tensor>>, a: seq<Tensor>, b: seq<Tensor>)
    requires DistinctSlots(adapter) && |adapter.stacked| == |a| == |b|
    requires PushFrom(adapter, windows, a, 0).1.Ok? && PushFrom(adapter, windows, b, 0).1.Ok?
    ensures PushFrom(adapter, windows, a, 0).0 == PushFrom(adapter, windows, b, 0).0 <==> a == b
  {
    hide PushFrom;
    if PushFrom(adapter, windows, a, 0).0 == PushFrom(adapter, windows, b, 0).0 {
      forall k | 0 <= k < |a| ensures a[k] == b[k] {
        PushesShow(adapter, windows, a, 0, k);
        PushesShow(adapter, windows, b, 0, k);
      }
    }
  }

  /**
   * Observing a step leaves the windows that assembling it leaves, if and only if
   * the encoding transform left every stacked slot with the frame its plan produced.
   */
  lemma ObservingIsAssemblingIff(adapter: Adapter, repack: Repack, cell: Cell, raw: RawObs, previous: Option<Row>)
    requires Sound(adapter)
    requires AssembleAfterRead(adapter, repack, cell, raw, previous).1.Ok? && Observe(adapter, cell, raw).1.Ok?
    ensures HasFrames(adapter, raw) && Repacked(adapter, repack, raw, previous).Some?
    ensures WindowsOf(AssembleAfterRead(adapter, repack, cell, raw, previous).0) == WindowsOf(Observe(adapter, cell, raw).0)
            <==> Slots(adapter, Repacked(adapter, repack, raw, previous).value, StepFrames(adapter, raw), 0)
  {
    hide Transform, StackFrom, PushFrom, HistoryFrames, DistinctSlots;
    var windows := WindowsOf(cell);
    var payload := Repacked(adapter, repack, raw, previous).value;
    HistoryFramesAre(adapter, raw, |adapter.stacked|);
    if adapter.stacked != [] {
      forall k | 0 <= k < |adapter.stacked| ensures SlotFrame(adapter, payload, k).Some? {
        StackFromNeedsTensors(adapter, windows, payload, 0, k);
      }
      SlotsAreTheirFrames(adapter, payload);
      var frames := SlotFrames(adapter, payload);
      assert HistoryFrames(adapter, raw, |adapter.stacked|).value == StepFrames(adapter, raw);
      StackingPushes(adapter, windows, payload, frames, 0);
      SamePushesIff(adapter, windows, frames, StepFrames(adapter, raw));
      assert Slots(adapter, payload, StepFrames(adapter, raw), 0) <==> frames == StepFrames(adapter, raw);
    }
  }

  // ----- A transform that repacks a stacked input

  function Grey(level: real): Tensor {
    Tensor(Float32, [1], [level])
  }

  function Camera(): ImagePlan {
    ImagePlan(ROOT, 2, None, First, None, 4, (raw: RawObs) => Some(Dense(Grey(0.0))))
  }

  function OneCamera(): Adapter {
    Adapter([Image(Camera())], 0, [StackedPlacement(ROOT, 2, 0, None, 2, First, 4)], [])
  }

  function Brighten(): Repack {
    (payload: Payload) => Some(payload[ROOT := Dense(Grey(1.0))])
  }

  lemma OneCameraIsValid()
    ensures OneCamera().Valid()
  {
    var plans := OneCamera().plans;
    assert StackedOf(plans, 0) == [] && PreviousOf(plans, 0) == [];
    assert StackedOf(plans, 1) == OneCamera().stacked;
  }

  // ----- Two runs over the same observations whose stacks differ

  lemma CameraPayload(raw: RawObs)
    ensures Repacked(OneCamera(), Brighten(), raw, None) == Some(map[ROOT := Dense(Grey(1.0))])
    ensures FrameOf(Camera(), raw) == Ok(Grey(0.0))
    ensures HistoryFrames(OneCamera(), raw, 1) == Ok([Grey(0.0)])
  {
    var plans := OneCamera().plans;
    assert Transform(plans, 0, raw, None) == Ok(map[]);
    assert Transform(plans, 1, raw, None) == Ok(map[ROOT := Dense(Grey(0.0))]);
    assert Brighten()(map[ROOT := Dense(Grey(0.0))]).value == map[ROOT := Dense(Grey(1.0))];
    assert HistoryFrames(OneCamera(), raw, 0) == Ok([]);
    assert OneCamera().ImageOf(OneCamera().stacked[0]) == Some(Camera());
    var none: seq<Tensor> := [];
    assert HistoryFrames(OneCamera(), raw, 1) == Ok(none + [Grey(0.0)]);
    assert none + [Grey(0.0)] == [Grey(0.0)];
  }

  /** A window of this camera: nothing yet, or two grey frames. */
  ghost predicate GreyWindow(windows: map<NodePath, seq<Tensor>>) {
    WindowAt(windows, ROOT) == [] || exists a, b :: WindowAt(windows, ROOT) == [Grey(a), Grey(b)]
  }

  lemma PushGrey(windows: map<NodePath, seq<Tensor>>, level: real)
    requires GreyWindow(windows)
    ensures var (after, r) := PushInto(OneCamera(), windows, OneCamera().stacked[0], Grey(level));
            && r.Ok? && ROOT in after
            && exists a, b :: after[ROOT] == [Grey(a), Grey(b)]
  {
    var held := WindowAt(windows, ROOT);
    assert OneCamera().ImageOf(OneCamera().stacked[0]) == Some(Camera());
    if held == [] {
      FirstPush(Grey(level), 2, Camera());
      assert Recent([Grey(level)], Grey(level), 2) == [Grey(level), Grey(level)];
    } else {
      var a, b :| held == [Grey(a), Grey(b)];
      assert DropFirst(held) == [Grey(b)];
      assert [Grey(b)] + [Grey(level)] == [Grey(b), Grey(level)];
    }
  }

  lemma GreysStack(a: real, b: real)
    ensures Gathered([Grey(a), Grey(b)], OneCamera().stacked[0]).Ok?
  {
    var frames := [Grey(a), Grey(b)];
    assert Stack(frames).Ok?;
  }

  /** Both ways of taking a step succeed on such a window, and leave one. */
  lemma GreyTick(cell: Cell, step: int, assemble: bool, raw: RawObs)
    requires GreyWindow(WindowsOf(cell))
    requires OrDefault(cell).lastStep.Some? ==> step == OrDefault(cell).lastStep.value + 1
    ensures var (next, outcome) := DoTick(OneCamera(), Brighten(), cell, step, assemble, raw);
            && !outcome.Failed? && (assemble <==> outcome.Assembled?)
            && OrDefault(next).lastStep == Some(step) && GreyWindow(WindowsOf(next))
  {
    hide PushInto, Gathered, Transform, HistoryFrames, Brighten;
    CameraPayload(raw);
    var windows, entry := WindowsOf(cell), OneCamera().stacked[0];
    assert !OneCamera().ReadsPrevious();
    var level := if assemble then 1.0 else 0.0;
    PushGrey(windows, level);
    var after := PushInto(OneCamera(), windows, entry, Grey(level)).0;
    var a, b :| after[ROOT] == [Grey(a), Grey(b)];
    GreysStack(a, b);
    if assemble {
      var payload: Payload := map[ROOT := Dense(Grey(1.0))];
      var done := StackSlot(OneCamera(), windows, payload, entry);
      assert done.Go? && done.windows == after;
      assert StackFrom(OneCamera(), windows, payload, 0) == StackFrom(OneCamera(), after, done.payload, 1);
    } else {
      assert PushFrom(OneCamera(), windows, [Grey(0.0)], 0) == PushFrom(OneCamera(), after, [Grey(0.0)], 1);
    }
  }

  /** Two steps, the first predicted at or only observed, the second predicted at. */
  function TwoSteps(predictFirst: bool, raw: RawObs): seq<Event> {
    [Tick(predictFirst, raw), Tick(true, raw)]
  }

  lemma TwoStepsPredict(predictFirst: bool, raw: RawObs) returns (payload: Payload)
    ensures Predicted(OneCamera(), Brighten(), 0, TwoSteps(predictFirst, raw), payload)
  {
    hide DoTick;
    var events := TwoSteps(predictFirst, raw);
    var none: seq<Event>, one := [], [Tick(predictFirst, raw)];
    assert none + one == one && one + [Tick(true, raw)] == events;
    GreyTick(None, 0, predictFirst, raw);
    OneMoreEvent(OneCamera(), Brighten(), 0, none, Tick(predictFirst, raw));
    GreyTick(After(OneCamera(), Brighten(), 0, one), 1, true, raw);
    OneMoreEvent(OneCamera(), Brighten(), 0, one, Tick(true, raw));
    payload := LastOutcome(OneCamera(), Brighten(), 0, events).payload;
  }

  lemma TwoStepsGive(predictFirst: bool, raw: RawObs)
    requires Sound(OneCamera())
    ensures Given(OneCamera(), Brighten(), 0, TwoSteps(predictFirst, raw), 0)
            == [Grey(if predictFirst then 1.0 else 0.0), Grey(1.0)]
  {
    hide Run, Sound, Brighten, Transform;
    var adapter, events := OneCamera(), TwoSteps(predictFirst, raw);
    var one := [Tick(predictFirst, raw)];
    assert one[..0] == [] && events[..1] == one;
    CameraPayload(raw);
    assert PlanOf(adapter, 0) == Camera() && !adapter.ReadsPrevious();
    forall cell, step ensures TickPayload(adapter, Brighten(), cell, step, raw) == Some(map[ROOT := Dense(Grey(1.0))]) {
    }
    var none: seq<Event> := [];
    assert GivenBy(adapter, Brighten(), 0, none, predictFirst, raw, 0) == Some(Grey(if predictFirst then 1.0 else 0.0));
    assert Given(adapter, Brighten(), 0, one, 0) == [Grey(if predictFirst then 1.0 else 0.0)];
    assert GivenBy(adapter, Brighten(), 0, one, true, raw, 0) == Some(Grey(1.0));
  }

  /**
   * The horizon shows through such a transform: two runs over the same
   * observations, one predicting at the first step and one only observing it,
   * return different stacks at the second.
   */
  lemma RepackingShows(raw: RawObs) returns (predicted: Payload, observed: Payload)
    ensures var adapter, repack := OneCamera(), Brighten();
            && adapter.Valid()
            && Predicted(adapter, repack, 0, TwoSteps(true, raw), predicted)
            && Predicted(adapter, repack, 0, TwoSteps(false, raw), observed)
            && Raws(TwoSteps(true, raw)) == Raws(TwoSteps(false, raw))
            && ROOT in predicted && ROOT in observed && predicted[ROOT] != observed[ROOT]
  {
    hide Predicted, Sound, Given, Adapter.Valid;
    var adapter, repack := OneCamera(), Brighten();
    OneCameraIsValid();
    ValidIsSound(adapter);
    predicted := TwoStepsPredict(true, raw);
    observed := TwoStepsPredict(false, raw);
    TwoStepsGive(true, raw);
    TwoStepsGive(false, raw);
    SameRaws(raw);
    SameStackIff(adapter, repack, 0, TwoSteps(true, raw), predicted, repack, 0, TwoSteps(false, raw), observed, 0);
    assert GatherOffsets(adapter.stacked[0])[0] == -1;
    assert Grey(0.0).data[0] != Grey(1.0).data[0];
    var given, given' := Given(adapter, repack, 0, TwoSteps(true, raw), 0), Given(adapter, repack, 0, TwoSteps(false, raw), 0);
    assert Look(given, PadFrame(given[0], PlanOf(adapter, 0)).value, GatherOffsets(adapter.stacked[0]))[0] == Grey(1.0);
    assert Look(given', PadFrame(given'[0], PlanOf(adapter, 0)).value, GatherOffsets(adapter.stacked[0]))[0] == Grey(0.0);
  }

  lemma SameRaws(raw: RawObs)
    ensures Raws(TwoSteps(true, raw)) == Raws(TwoSteps(false, raw))
  {
    assert TwoSteps(true, raw)[..1] == [Tick(true, raw)] && TwoSteps(false, raw)[..1] == [Tick(false, raw)];
    assert [Tick(true, raw)][..0] == [] && [Tick(false, raw)][..0] == [];
  }
}
