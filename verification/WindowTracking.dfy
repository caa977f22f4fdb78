/**
 * How the windows of an episode follow the unbounded histories they stand for,
 * one engine call at a time.
 */
module WindowTracking {
  import opened Wrappers
  import opened Tensors
  import opened Values
  import opened Paths
  import opened Plans
  import opened Windows
  import opened Episodes

  /** What a window holds for a history: nothing before the first frame, then the newest `span`. */
  ghost function Held(history: seq<Tensor>, image: ImagePlan, span: nat): seq<Tensor> {
    if history == [] || PadFrame(history[0], image).Err? then []
    else Recent(history, PadFrame(history[0], image).value, span)
  }

  /** One push takes the window of a history to the window of the longer history. */
  lemma PushExtendsHistory(history: seq<Tensor>, frame: Tensor, image: ImagePlan, span: nat)
    requires 1 <= span
    requires history != [] ==> PadFrame(history[0], image).Ok?
    ensures var pushed := Pushed(Held(history, image, span), frame, span, image);
            if PadFrame((history + [frame])[0], image).Ok? then pushed == Ok(Held(history + [frame], image, span))
            else pushed.Err? && pushed.error == BadPad
  {
    if history == [] {
      assert (history + [frame]) == [frame];
      if PadFrame(frame, image).Ok? {
        FirstPush(frame, span, image);
      }
    } else {
      NextPush(history, PadFrame(history[0], image).value, frame, span, image);
    }
  }

  /** The histories of all stacked placements at once, one list per placement. */
  type Histories = seq<seq<Tensor>>

  ghost function PlanOf(adapter: Adapter, j: nat): ImagePlan
    requires Sound(adapter) && j < |adapter.stacked|
  {
    adapter.plans[adapter.stacked[j].planIndex].image
  }

  /** Every window holds what its history says. */
  ghost predicate Tracks(adapter: Adapter, windows: map<NodePath, seq<Tensor>>, hists: Histories)
    requires Sound(adapter)
  {
    && |hists| == |adapter.stacked|
    && forall j :: 0 <= j < |hists| ==> TracksAt(adapter, windows, j, hists[j])
  }

  ghost predicate TracksAt(adapter: Adapter, windows: map<NodePath, seq<Tensor>>, j: nat, hist: seq<Tensor>)
    requires Sound(adapter) && j < |adapter.stacked|
  {
    && (hist != [] ==> PadFrame(hist[0], PlanOf(adapter, j)).Ok?)
    && WindowAt(windows, adapter.stacked[j].placement) == Held(hist, PlanOf(adapter, j), adapter.stacked[j].span)
  }

  lemma PushTracks(adapter: Adapter, windows: map<NodePath, seq<Tensor>>, hists: Histories, j: nat, frame: Tensor)
    requires Sound(adapter) && Tracks(adapter, windows, hists) && j < |hists|
    ensures var (pushed, r) := PushInto(adapter, windows, adapter.stacked[j], frame);
            if r.Ok? then Tracks(adapter, pushed, hists[j := hists[j] + [frame]]) else r.error == BadPad
  {
    var entry := adapter.stacked[j];
    assert IsEntry(adapter.plans, entry);
    assert TracksAt(adapter, windows, j, hists[j]);
    PushExtendsHistory(hists[j], frame, PlanOf(adapter, j), entry.span);
    var (pushed, r) := PushInto(adapter, windows, entry, frame);
    if r.Ok? {
      var longer := hists[j := hists[j] + [frame]];
      assert TracksAt(adapter, pushed, j, longer[j]);
      forall k | 0 <= k < |longer| && k != j ensures TracksAt(adapter, pushed, k, longer[k]) {
        assert adapter.stacked[k].placement != entry.placement;
        assert TracksAt(adapter, windows, k, hists[k]);
      }
    }
  }

  /** The stack an unbounded history gives: slot by slot, the frames at the offsets. */
  ghost function HistoryStack(adapter: Adapter, j: nat, hist: seq<Tensor>): Result<Tensor, ApplyError>
    requires Sound(adapter) && j < |adapter.stacked|
    requires hist != [] && PadFrame(hist[0], PlanOf(adapter, j)).Ok?
  {
    var entry := adapter.stacked[j];
    assert IsEntry(adapter.plans, entry);
    GatherReadsHistory(hist, hist[0], entry, PlanOf(adapter, j));
    StackUp(Look(hist, PadFrame(hist[0], PlanOf(adapter, j)).value, GatherOffsets(entry)))
  }

  lemma GatherTracks(adapter: Adapter, windows: map<NodePath, seq<Tensor>>, j: nat, hist: seq<Tensor>)
    requires Sound(adapter) && j < |adapter.stacked| && hist != [] && TracksAt(adapter, windows, j, hist)
    ensures adapter.stacked[j].placement in windows
    ensures Gathered(windows[adapter.stacked[j].placement], adapter.stacked[j]) == HistoryStack(adapter, j, hist)
    ensures HistoryStack(adapter, j, hist).Err? ==> HistoryStack(adapter, j, hist).error.StackFailed?
  {
    var entry := adapter.stacked[j];
    assert IsEntry(adapter.plans, entry);
    GatherReadsHistory(hist, PadFrame(hist[0], PlanOf(adapter, j)).value, entry, PlanOf(adapter, j));
  }

  ghost function Extend(hists: Histories, frames: seq<Tensor>, from: nat): Histories
    requires |hists| == |frames|
  {
    seq(|hists|, k requires 0 <= k < |hists| => if from <= k then hists[k] + [frames[k]] else hists[k])
  }

  lemma ExtendOne(hists: Histories, frames: seq<Tensor>, j: nat)
    requires j < |hists| == |frames|
    ensures Extend(hists[j := hists[j] + [frames[j]]], frames, j + 1) == Extend(hists, frames, j)
  {
  }

  lemma {:induction false} PushFromTracks(
      adapter: Adapter, windows: map<NodePath, seq<Tensor>>, hists: Histories, frames: seq<Tensor>, j: nat)
    requires Sound(adapter) && Tracks(adapter, windows, hists) && j <= |hists| == |frames|
    ensures var (pushed, r) := PushFrom(adapter, windows, frames, j);
            if r.Ok? then Tracks(adapter, pushed, Extend(hists, frames, j)) else r.error == BadPad
    decreases |hists| - j
  {
    hide PushInto;
    if j == |hists| {
      assert Extend(hists, frames, j) == hists;
    } else {
      PushTracks(adapter, windows, hists, j, frames[j]);
      var (pushed, r) := PushInto(adapter, windows, adapter.stacked[j], frames[j]);
      if r.Ok? {
        ExtendOne(hists, frames, j);
        PushFromTracks(adapter, pushed, hists[j := hists[j] + [frames[j]]], frames, j + 1);
      }
    }
  }

  /** The payload's stacked slots from the `j`-th on hold the step's own frames. */
  ghost predicate Slots(adapter: Adapter, payload: Payload, frames: seq<Tensor>, from: nat) {
    && |frames| == |adapter.stacked|
    && forall k :: from <= k < |frames| ==>
         adapter.stacked[k].placement in payload && payload[adapter.stacked[k].placement] == Dense(frames[k])
  }

  ghost predicate StackedAt(adapter: Adapter, payload: Payload, k: nat, hist: seq<Tensor>)
    requires Sound(adapter) && k < |adapter.stacked|
  {
    && hist != []
    && PadFrame(hist[0], PlanOf(adapter, k)).Ok?
    && HistoryStack(adapter, k, hist).Ok?
    && adapter.stacked[k].placement in payload
    && payload[adapter.stacked[k].placement] == Dense(HistoryStack(adapter, k, hist).value)
  }

  /** The payload's stacked slots from the `j`-th on hold the stacks of the histories. */
  ghost predicate Stacked(adapter: Adapter, payload: Payload, hists: Histories, from: nat)
    requires Sound(adapter)
  {
    && |hists| == |adapter.stacked|
    && forall k :: from <= k < |hists| ==> StackedAt(adapter, payload, k, hists[k])
  }

  /** Stacking one placement touches no other slot. */
  lemma StackSlotKeeps(adapter: Adapter, windows: map<NodePath, seq<Tensor>>, payload: Payload, j: nat, k: nat)
    requires DistinctSlots(adapter) && j < |adapter.stacked| && k < |adapter.stacked| && j != k
    ensures var p := adapter.stacked[k].placement;
            var done := StackSlot(adapter, windows, payload, adapter.stacked[j]);
            done.Go? ==> (p in done.payload <==> p in payload) && (p in payload ==> done.payload[p] == payload[p])
  {
    assert adapter.stacked[j].placement != adapter.stacked[k].placement;
  }

  /** Stacking the later placements leaves an earlier one's slot alone. */
  lemma {:induction false} StackFromKeeps(
      adapter: Adapter, windows: map<NodePath, seq<Tensor>>, payload: Payload, j: nat, k: nat)
    requires DistinctSlots(adapter) && k < j <= |adapter.stacked|
    requires adapter.stacked[k].placement in payload
    requires StackFrom(adapter, windows, payload, j).1.Ok?
    ensures var p := adapter.stacked[k].placement;
            var stacked := StackFrom(adapter, windows, payload, j).1.value;
            p in stacked && stacked[p] == payload[p]
    decreases |adapter.stacked| - j
  {
    hide StackSlot;
    if j < |adapter.stacked| {
      StackSlotKeeps(adapter, windows, payload, j, k);
      var done := StackSlot(adapter, windows, payload, adapter.stacked[j]);
      assert StackFrom(adapter, windows, payload, j) == StackFrom(adapter, done.windows, done.payload, j + 1);
      StackFromKeeps(adapter, done.windows, done.payload, j + 1, k);
    }
  }

  lemma StackSlotNeedsTensor(adapter: Adapter, windows: map<NodePath, seq<Tensor>>, payload: Payload, entry: StackedPlacement)
    ensures StackSlot(adapter, windows, payload, entry).Go? ==>
              entry.placement in payload && payload[entry.placement].Dense?
    ensures entry.placement in payload && !payload[entry.placement].Dense? ==>
              StackSlot(adapter, windows, payload, entry) == Stop(windows, NotATensor)
    ensures entry.placement !in payload ==> StackSlot(adapter, windows, payload, entry) == Stop(windows, MissingSlot)
  {
  }

  /** A tensor is needed in every stacked slot. */
  lemma {:induction false} StackFromNeedsTensors(
      adapter: Adapter, windows: map<NodePath, seq<Tensor>>, payload: Payload, j: nat, k: nat)
    requires DistinctSlots(adapter) && j <= k < |adapter.stacked|
    requires StackFrom(adapter, windows, payload, j).1.Ok?
    ensures adapter.stacked[k].placement in payload && payload[adapter.stacked[k].placement].Dense?
    decreases k - j
  {
    hide StackSlot;
    StackSlotNeedsTensor(adapter, windows, payload, adapter.stacked[j]);
    if j < k {
      StackSlotKeeps(adapter, windows, payload, j, k);
      var done := StackSlot(adapter, windows, payload, adapter.stacked[j]);
      StackFromNeedsTensors(adapter, done.windows, done.payload, j + 1, k);
    }
  }

  /** One placement: its window takes the frame, and its slot its history's stack. */
  lemma StackSlotTracks(
      adapter: Adapter, windows: map<NodePath, seq<Tensor>>, payload: Payload, hists: Histories, j: nat, frame: Tensor)
    requires Sound(adapter) && Tracks(adapter, windows, hists) && j < |hists|
    requires adapter.stacked[j].placement in payload && payload[adapter.stacked[j].placement] == Dense(frame)
    ensures var done := StackSlot(adapter, windows, payload, adapter.stacked[j]);
            var longer := hists[j] + [frame];
            if done.Go? then
              Tracks(adapter, done.windows, hists[j := longer]) && StackedAt(adapter, done.payload, j, longer)
            else done.error == BadPad || done.error.StackFailed?
  {
    PushTracks(adapter, windows, hists, j, frame);
    var (pushed, r) := PushInto(adapter, windows, adapter.stacked[j], frame);
    if r.Ok? {
      assert TracksAt(adapter, pushed, j, hists[j := hists[j] + [frame]][j]);
      GatherTracks(adapter, pushed, j, hists[j] + [frame]);
    }
  }

  lemma {:induction false} StackFromTracks(
      adapter: Adapter, windows: map<NodePath, seq<Tensor>>, payload: Payload,
      hists: Histories, frames: seq<Tensor>, j: nat)
    requires Sound(adapter) && Tracks(adapter, windows, hists) && j <= |hists|
    requires Slots(adapter, payload, frames, j)
    ensures var (pushed, r) := StackFrom(adapter, windows, payload, j);
            if r.Ok? then
              Tracks(adapter, pushed, Extend(hists, frames, j)) && Stacked(adapter, r.value, Extend(hists, frames, j), j)
            else r.error == BadPad || r.error.StackFailed?
    decreases |hists| - j
  {
    hide StackSlot, HistoryStack, Pushed;
    if j == |hists| {
      assert Extend(hists, frames, j) == hists;
    } else {
      var longer := hists[j] + [frames[j]];
      StackSlotTracks(adapter, windows, payload, hists, j, frames[j]);
      var done := StackSlot(adapter, windows, payload, adapter.stacked[j]);
      if done.Go? {
        SlotsLeft(adapter, windows, payload, frames, j);
        ExtendOne(hists, frames, j);
        StackFromTracks(adapter, done.windows, done.payload, hists[j := longer], frames, j + 1);
        var rest := StackFrom(adapter, done.windows, done.payload, j + 1).1;
        if rest.Ok? {
          StackFromKeeps(adapter, done.windows, done.payload, j + 1, j);
          assert StackedAt(adapter, rest.value, j, longer);
          assert Extend(hists, frames, j)[j] == longer;
        }
      }
    }
  }

  /** After one placement the later slots still hold the step's own frames. */
  lemma SlotsLeft(
      adapter: Adapter, windows: map<NodePath, seq<Tensor>>, payload: Payload, frames: seq<Tensor>, j: nat)
    requires DistinctSlots(adapter) && j < |adapter.stacked| && Slots(adapter, payload, frames, j)
    ensures var done := StackSlot(adapter, windows, payload, adapter.stacked[j]);
            done.Go? ==> Slots(adapter, done.payload, frames, j + 1)
  {
    forall k | j + 1 <= k < |frames|
      ensures var done := StackSlot(adapter, windows, payload, adapter.stacked[j]);
              done.Go? ==> adapter.stacked[k].placement in done.payload
                           && done.payload[adapter.stacked[k].placement] == Dense(frames[k])
    {
      StackSlotKeeps(adapter, windows, payload, j, k);
    }
  }

  /** One plan fills its own slot and touches no other. */
  lemma PlaceOne(payload: Payload, plan: ObsPlan, raw: RawObs, previous: Option<Row>, p: NodePath)
    ensures var placed := Place(payload, plan, raw, previous);
            if placed.Ok? then
              && (p != plan.Placement() ==>
                    (p in placed.value <==> p in payload) && (p in payload ==> placed.value[p] == payload[p]))
              && (plan.Image? && p == plan.Placement() ==>
                    plan.image.apply(raw).Some? && p in placed.value && placed.value[p] == plan.image.apply(raw).value)
            else placed.error == PlanFailed
  {
  }

  /** Each image input lands at its own placement, as its pipeline produced it. */
  lemma {:induction false} TransformPlaces(plans: seq<ObsPlan>, n: nat, raw: RawObs, previous: Option<Row>, i: nat)
    requires i < n <= |plans| && DistinctPlacements(plans) && plans[i].Image?
    requires Transform(plans, n, raw, previous).Ok?
    ensures && plans[i].image.apply(raw).Some?
            && plans[i].image.placement in Transform(plans, n, raw, previous).value
            && Transform(plans, n, raw, previous).value[plans[i].image.placement] == plans[i].image.apply(raw).value
  {
    hide Place;
    var before := Transform(plans, n - 1, raw, previous).value;
    PlaceOne(before, plans[n - 1], raw, previous, plans[i].Placement());
    if i < n - 1 {
      assert plans[i].Placement() != plans[n - 1].Placement();
      TransformPlaces(plans, n - 1, raw, previous, i);
    }
  }

  /** The step's processed frames, one per stacked placement. */
  ghost function StepFrames(adapter: Adapter, raw: RawObs): seq<Tensor>
    requires Sound(adapter)
    requires forall j :: 0 <= j < |adapter.stacked| ==> FrameOf(PlanOf(adapter, j), raw).Ok?
  {
    seq<Tensor>(|adapter.stacked|, j requires 0 <= j < |adapter.stacked| => FrameOf(PlanOf(adapter, j), raw).value)
  }

  ghost predicate HasFrames(adapter: Adapter, raw: RawObs)
    requires Sound(adapter)
  {
    forall j :: 0 <= j < |adapter.stacked| ==> FrameOf(PlanOf(adapter, j), raw).Ok?
  }

  /** Errors that only the observation or its pad can cause; running short of frames is not one. */
  predicate Environmental(e: ApplyError) {
    e == BadPad || e.StackFailed? || e == PlanFailed || e == NotATensor
  }

  /** The windows of whatever the buffers hold for an episode. */
  ghost function WindowsOf(cell: Cell): map<NodePath, seq<Tensor>> {
    OrDefault(cell).windows
  }

  lemma {:induction false} HistoryFramesAre(adapter: Adapter, raw: RawObs, n: nat)
    requires Sound(adapter) && n <= |adapter.stacked|
    ensures var frames := HistoryFrames(adapter, raw, n);
            if frames.Ok? then
              && |frames.value| == n
              && forall j :: 0 <= j < n ==> FrameOf(PlanOf(adapter, j), raw) == Ok(frames.value[j])
            else Environmental(frames.error)
  {
    hide Sound, FrameOf;
    if n > 0 {
      HistoryFramesAre(adapter, raw, n - 1);
      EntryHasItsPlan(adapter, n - 1);
      FrameFails(PlanOf(adapter, n - 1), raw);
    }
  }

  lemma EntryHasItsPlan(adapter: Adapter, j: nat)
    requires Sound(adapter) && j < |adapter.stacked|
    ensures adapter.ImageOf(adapter.stacked[j]) == Some(PlanOf(adapter, j))
  {
    assert IsEntry(adapter.plans, adapter.stacked[j]);
  }

  lemma FrameFails(image: ImagePlan, raw: RawObs)
    ensures FrameOf(image, raw).Err? ==> Environmental(FrameOf(image, raw).error)
  {
  }

  /** An observe tick extends every history by the step's own frame. */
  lemma ObserveTracks(adapter: Adapter, cell: Cell, raw: RawObs, hists: Histories)
    requires Sound(adapter) && Tracks(adapter, WindowsOf(cell), hists)
    ensures var (next, r) := Observe(adapter, cell, raw);
            if r.Ok? then
              HasFrames(adapter, raw) && Tracks(adapter, WindowsOf(next), Extend(hists, StepFrames(adapter, raw), 0))
            else Environmental(r.error)
  {
    hide PushFrom, HistoryFrames;
    if adapter.stacked == [] {
      assert Extend(hists, StepFrames(adapter, raw), 0) == hists;
    } else {
      HistoryFramesAre(adapter, raw, |adapter.stacked|);
      var frames := HistoryFrames(adapter, raw, |adapter.stacked|);
      if frames.Ok? {
        assert frames.value == StepFrames(adapter, raw);
        PushFromTracks(adapter, WindowsOf(cell), hists, frames.value, 0);
      }
    }
  }

  lemma {:induction false} TransformFails(plans: seq<ObsPlan>, n: nat, raw: RawObs, previous: Option<Row>)
    requires n <= |plans| && Transform(plans, n, raw, previous).Err?
    ensures Transform(plans, n, raw, previous).error == PlanFailed
  {
    if Transform(plans, n - 1, raw, previous).Err? {
      TransformFails(plans, n - 1, raw, previous);
    }
  }

  // ----- What a step pushes

  /** The payload an env step would stack if it predicts: None where its read or a pipeline fails. */
  ghost function TickPayload(adapter: Adapter, repack: Repack, cell: Cell, step: int, raw: RawObs): Option<Payload> {
    var read := ReadPrevious(adapter, Advance(cell, step).0, step).1;
    if read.Err? then None else Repacked(adapter, repack, raw, read.value)
  }

  /** The tensor in one stacked slot of a payload. */
  ghost function SlotFrame(adapter: Adapter, payload: Payload, j: nat): Option<Tensor>
    requires j < |adapter.stacked|
  {
    var p := adapter.stacked[j].placement;
    if p in payload && payload[p].Dense? then Some(payload[p].tensor) else None
  }

  /** Every stacked slot of the payload holds a tensor. */
  ghost predicate AllTensors(adapter: Adapter, payload: Payload) {
    forall k :: 0 <= k < |adapter.stacked| ==> SlotFrame(adapter, payload, k).Some?
  }

  ghost function SlotFrames(adapter: Adapter, payload: Payload): seq<Tensor>
    requires AllTensors(adapter, payload)
  {
    seq<Tensor>(|adapter.stacked|, k requires 0 <= k < |adapter.stacked| => SlotFrame(adapter, payload, k).value)
  }

  lemma SlotsAreTheirFrames(adapter: Adapter, payload: Payload)
    requires AllTensors(adapter, payload)
    ensures Slots(adapter, payload, SlotFrames(adapter, payload), 0)
  {
    forall k | 0 <= k < |adapter.stacked|
      ensures adapter.stacked[k].placement in payload
              && payload[adapter.stacked[k].placement] == Dense(SlotFrames(adapter, payload)[k])
    {
      assert SlotFrame(adapter, payload, k).Some?;
    }
  }

  /** The frame an env step gives a stacked input: the repacked slot if it predicts, the plan's frame if it only observes. */
  ghost function FrameGiven(
      adapter: Adapter, repack: Repack, cell: Cell, step: int, assemble: bool, raw: RawObs, j: nat): Option<Tensor>
    requires Sound(adapter) && j < |adapter.stacked|
  {
    if assemble then
      var payload := TickPayload(adapter, repack, cell, step, raw);
      if payload.Some? then SlotFrame(adapter, payload.value, j) else None
    else
      match FrameOf(PlanOf(adapter, j), raw)
      case Ok(frame) => Some(frame)
      case Err(_) => None
  }

  /** Stacking fails only for what the payload is: a slot without a tensor, a refused pad, frames that do not stack. */
  lemma {:induction false} StackFromErrors(
      adapter: Adapter, windows: map<NodePath, seq<Tensor>>, payload: Payload, hists: Histories, j: nat)
    requires Sound(adapter) && Tracks(adapter, windows, hists) && j <= |hists|
    ensures var r := StackFrom(adapter, windows, payload, j).1;
            r.Err? ==> Environmental(r.error)
                       || (r.error == MissingSlot && exists k :: j <= k < |hists| && adapter.stacked[k].placement !in payload)
    decreases |hists| - j
  {
    hide StackSlot;
    if j < |hists| {
      var entry := adapter.stacked[j];
      StackSlotNeedsTensor(adapter, windows, payload, entry);
      var done := StackSlot(adapter, windows, payload, entry);
      if entry.placement in payload && payload[entry.placement].Dense? {
        StackSlotTracks(adapter, windows, payload, hists, j, payload[entry.placement].tensor);
        if done.Go? {
          forall k | j + 1 <= k < |adapter.stacked|
            ensures adapter.stacked[k].placement in done.payload <==> adapter.stacked[k].placement in payload
          {
            StackSlotKeeps(adapter, windows, payload, j, k);
          }
          var longer := hists[j := hists[j] + [payload[entry.placement].tensor]];
          StackFromErrors(adapter, done.windows, done.payload, longer, j + 1);
        }
      }
    }
  }

  /** An assembled tick extends every history by the slot its payload stacks, and returns the histories' stacks. */
  lemma AssembleTracks(
      adapter: Adapter, repack: Repack, cell: Cell, raw: RawObs, previous: Option<Row>, hists: Histories)
    requires Sound(adapter) && Tracks(adapter, WindowsOf(cell), hists)
    ensures var (next, r) := AssembleAfterRead(adapter, repack, cell, raw, previous);
            var payload := Repacked(adapter, repack, raw, previous);
            if r.Ok? then
              && payload.Some? && AllTensors(adapter, payload.value)
              && Tracks(adapter, WindowsOf(next), Extend(hists, SlotFrames(adapter, payload.value), 0))
              && Stacked(adapter, r.value, Extend(hists, SlotFrames(adapter, payload.value), 0), 0)
            else
              || Environmental(r.error)
              || (r.error == MissingSlot && payload.Some?
                  && exists k :: 0 <= k < |adapter.stacked| && adapter.stacked[k].placement !in payload.value)
  {
    hide Transform, StackFrom, HistoryStack;
    var transformed := Transform(adapter.plans, |adapter.plans|, raw, previous);
    if transformed.Err? {
      TransformFails(adapter.plans, |adapter.plans|, raw, previous);
    } else if repack(transformed.value).Some? {
      var payload := repack(transformed.value).value;
      if adapter.stacked == [] {
        assert Extend(hists, SlotFrames(adapter, payload), 0) == hists;
      } else {
        StackFromErrors(adapter, WindowsOf(cell), payload, hists, 0);
        if StackFrom(adapter, WindowsOf(cell), payload, 0).1.Ok? {
          forall k | 0 <= k < |adapter.stacked| ensures SlotFrame(adapter, payload, k).Some? {
            StackFromNeedsTensors(adapter, WindowsOf(cell), payload, 0, k);
          }
          SlotsAreTheirFrames(adapter, payload);
          StackFromTracks(adapter, WindowsOf(cell), payload, hists, SlotFrames(adapter, payload), 0);
        }
      }
    }
  }
}
