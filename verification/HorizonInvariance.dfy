/**
 * What an assembled observation stacks: the frames as each env step gave them.
 * Whether those are the steps' own frames, and so the same however the steps
 * were divided into predicted and only observed ones, depends on the encoding
 * transform alone.
 */
module HorizonInvariance {
  import opened Wrappers
  import opened Tensors
  import opened Values
  import opened Plans
  import opened Windows
  import opened Episodes
  import opened Runs
  import opened WindowTracking

  /** Recording actions leaves the windows and the step counter alone. */
  lemma {:induction false} RecordKeepsWindows(adapter: Adapter, cell: Cell, rows: seq<Row>, start: int)
    ensures var next := RecordFrom(adapter, cell, rows, start).0;
            WindowsOf(next) == WindowsOf(cell) && OrDefault(next).lastStep == OrDefault(cell).lastStep
    decreases |rows|
  {
    if rows != [] {
      var (next, r) := Record(adapter, cell, rows[0], start);
      if r.Ok? {
        RecordKeepsWindows(adapter, next, rows[1..], start + 1);
      }
    }
  }

  /** A previous-action read leaves the windows and the step counter alone. */
  lemma ReadKeepsWindows(adapter: Adapter, cell: Cell, step: int)
    ensures var (next, r) := ReadPrevious(adapter, cell, step);
            && WindowsOf(next) == WindowsOf(cell) && OrDefault(next).lastStep == OrDefault(cell).lastStep
            && (r.Err? ==> r.error.NoActionRecorded?)
  {
  }

  lemma TickKeepsStep(adapter: Adapter, repack: Repack, cell: Cell, raw: RawObs, previous: Option<Row>)
    ensures OrDefault(AssembleAfterRead(adapter, repack, cell, raw, previous).0).lastStep == OrDefault(cell).lastStep
    ensures OrDefault(Observe(adapter, cell, raw).0).lastStep == OrDefault(cell).lastStep
  {
    hide Transform, StackFrom, HistoryFrames, PushFrom;
  }

  // ----- Histories of a run

  /** The frame an env step after `before` gives the `j`-th stacked input. */
  ghost function GivenBy(
      adapter: Adapter, repack: Repack, first: int, before: seq<Event>, assemble: bool, raw: RawObs, j: nat): Option<Tensor>
    requires Sound(adapter) && j < |adapter.stacked|
  {
    FrameGiven(adapter, repack, After(adapter, repack, first, before), first + Ticks(before), assemble, raw, j)
  }

  /** The frames the env steps of a run gave the `j`-th stacked input, in order. */
  ghost function Given(adapter: Adapter, repack: Repack, first: int, events: seq<Event>, j: nat): seq<Tensor>
    requires Sound(adapter) && j < |adapter.stacked|
    decreases |events|
  {
    if events == [] then []
    else
      var before := events[..|events| - 1];
      var last := events[|events| - 1];
      var earlier := Given(adapter, repack, first, before, j);
      if last.Chunk? then earlier
      else
        var frame := GivenBy(adapter, repack, first, before, last.assemble, last.raw, j);
        if frame.Some? then earlier + [frame.value] else earlier
  }

  /** The histories of a run, one per stacked placement. */
  ghost function HistoriesOf(adapter: Adapter, repack: Repack, first: int, events: seq<Event>): Histories
    requires Sound(adapter)
  {
    seq(|adapter.stacked|, j requires 0 <= j < |adapter.stacked| => Given(adapter, repack, first, events, j))
  }

  /** The step gave every stacked input a frame. */
  ghost predicate GivesAll(adapter: Adapter, repack: Repack, cell: Cell, step: int, assemble: bool, raw: RawObs)
    requires Sound(adapter)
  {
    forall j :: 0 <= j < |adapter.stacked| ==> FrameGiven(adapter, repack, cell, step, assemble, raw, j).Some?
  }

  ghost function FramesGiven(
      adapter: Adapter, repack: Repack, cell: Cell, step: int, assemble: bool, raw: RawObs): seq<Tensor>
    requires Sound(adapter) && GivesAll(adapter, repack, cell, step, assemble, raw)
  {
    seq<Tensor>(|adapter.stacked|, j requires 0 <= j < |adapter.stacked| =>
      FrameGiven(adapter, repack, cell, step, assemble, raw, j).value)
  }

  lemma HistoriesGrow(adapter: Adapter, repack: Repack, first: int, events: seq<Event>)
    requires Sound(adapter) && events != []
    ensures var before := events[..|events| - 1];
            var last := events[|events| - 1];
            var cell, step := After(adapter, repack, first, before), first + Ticks(before);
            && (last.Chunk? ==> HistoriesOf(adapter, repack, first, events) == HistoriesOf(adapter, repack, first, before))
            && (last.Tick? && GivesAll(adapter, repack, cell, step, last.assemble, last.raw) ==>
                  HistoriesOf(adapter, repack, first, events)
                  == Extend(HistoriesOf(adapter, repack, first, before),
                            FramesGiven(adapter, repack, cell, step, last.assemble, last.raw), 0))
  {
    hide FrameGiven, Run, Sound;
    var before := events[..|events| - 1];
    var last := events[|events| - 1];
    var cell, step := After(adapter, repack, first, before), first + Ticks(before);
    var was, now := HistoriesOf(adapter, repack, first, before), HistoriesOf(adapter, repack, first, events);
    if last.Chunk? {
      assert now == was;
    } else if GivesAll(adapter, repack, cell, step, last.assemble, last.raw) {
      var frames := FramesGiven(adapter, repack, cell, step, last.assemble, last.raw);
      forall j | 0 <= j < |now| ensures now[j] == Extend(was, frames, 0)[j] {
        assert FrameGiven(adapter, repack, cell, step, last.assemble, last.raw, j).Some?;
      }
      assert now == Extend(was, frames, 0);
    }
  }

  // ----- One env step

  /** What an env step can fail for: what was observed, a missing action row, or a slot the transform took away. */
  ghost predicate OwnFault(adapter: Adapter, repack: Repack, cell: Cell, step: int, assemble: bool, raw: RawObs, e: ApplyError) {
    || Environmental(e) || e.NoActionRecorded?
    || (e == MissingSlot && assemble && TickPayload(adapter, repack, cell, step, raw).Some?
        && exists k :: 0 <= k < |adapter.stacked|
             && adapter.stacked[k].placement !in TickPayload(adapter, repack, cell, step, raw).value)
  }

  lemma ObserveGives(adapter: Adapter, repack: Repack, cell: Cell, step: int, raw: RawObs)
    requires Sound(adapter) && HasFrames(adapter, raw)
    ensures GivesAll(adapter, repack, cell, step, false, raw)
    ensures FramesGiven(adapter, repack, cell, step, false, raw) == StepFrames(adapter, raw)
  {
    hide FrameOf, Sound;
    forall j | 0 <= j < |adapter.stacked|
      ensures FrameGiven(adapter, repack, cell, step, false, raw, j) == Some(StepFrames(adapter, raw)[j])
    {
      assert FrameOf(PlanOf(adapter, j), raw).Ok?;
    }
  }

  lemma AssembleGives(adapter: Adapter, repack: Repack, cell: Cell, step: int, raw: RawObs)
    requires Sound(adapter) && TickPayload(adapter, repack, cell, step, raw).Some?
    requires AllTensors(adapter, TickPayload(adapter, repack, cell, step, raw).value)
    ensures GivesAll(adapter, repack, cell, step, true, raw)
    ensures FramesGiven(adapter, repack, cell, step, true, raw)
            == SlotFrames(adapter, TickPayload(adapter, repack, cell, step, raw).value)
  {
    hide TickPayload, Sound, SlotFrame;
    var payload := TickPayload(adapter, repack, cell, step, raw).value;
    forall j | 0 <= j < |adapter.stacked|
      ensures FrameGiven(adapter, repack, cell, step, true, raw, j) == Some(SlotFrames(adapter, payload)[j])
    {
      assert SlotFrame(adapter, payload, j).Some?;
    }
  }

  /** One env step, taken in order, extends every history by the frame it gave. */
  lemma TickTracks(
      adapter: Adapter, repack: Repack, cell: Cell, step: int, assemble: bool, raw: RawObs, hists: Histories)
    requires Sound(adapter) && Tracks(adapter, WindowsOf(cell), hists)
    requires OrDefault(cell).lastStep.Some? ==> step == OrDefault(cell).lastStep.value + 1
    ensures var (next, outcome) := DoTick(adapter, repack, cell, step, assemble, raw);
            if outcome.Failed? then OwnFault(adapter, repack, cell, step, assemble, raw, outcome.error)
            else
              && OrDefault(next).lastStep == Some(step)
              && GivesAll(adapter, repack, cell, step, assemble, raw)
              && (assemble <==> outcome.Assembled?)
              && var longer := Extend(hists, FramesGiven(adapter, repack, cell, step, assemble, raw), 0);
                 && Tracks(adapter, WindowsOf(next), longer)
                 && (assemble ==> Stacked(adapter, outcome.payload, longer, 0))
  {
    hide ReadPrevious, AssembleAfterRead, Observe, Tracks, Stacked, GivesAll, Sound, Repacked, AllTensors, HasFrames;
    var advanced := Advance(cell, step).0;
    assert WindowsOf(advanced) == WindowsOf(cell);
    if assemble {
      ReadKeepsWindows(adapter, advanced, step);
      var (read, previous) := ReadPrevious(adapter, advanced, step);
      if previous.Ok? {
        TickKeepsStep(adapter, repack, read, raw, previous.value);
        AssembleTracks(adapter, repack, read, raw, previous.value, hists);
        assert TickPayload(adapter, repack, cell, step, raw) == Repacked(adapter, repack, raw, previous.value);
        if AssembleAfterRead(adapter, repack, read, raw, previous.value).1.Ok? {
          AssembleGives(adapter, repack, cell, step, raw);
        }
      }
    } else {
      TickKeepsStep(adapter, repack, advanced, raw, None);
      ObserveTracks(adapter, advanced, raw, hists);
      if Observe(adapter, advanced, raw).1.Ok? {
        ObserveGives(adapter, repack, cell, step, raw);
      }
    }
  }

  // ----- Whole runs

  /** A clean run's own bookkeeping: its windows and its step counter are where they should be. */
  ghost predicate OnTrack(adapter: Adapter, repack: Repack, first: int, events: seq<Event>)
    requires Sound(adapter)
  {
    var cell := After(adapter, repack, first, events);
    && Tracks(adapter, WindowsOf(cell), HistoriesOf(adapter, repack, first, events))
    && OrDefault(cell).lastStep == if Ticks(events) == 0 then None else Some(first + Ticks(events) - 1)
  }

  /** One event after a clean run: on track for the longer run, or failed for its own fault. */
  lemma EventOnTrack(adapter: Adapter, repack: Repack, first: int, events: seq<Event>)
    requires Sound(adapter) && events != [] && OnTrack(adapter, repack, first, events[..|events| - 1])
    ensures var before := events[..|events| - 1];
            var last, outcome := events[|events| - 1], LastOutcome(adapter, repack, first, events);
            var cell, step := After(adapter, repack, first, before), first + Ticks(before);
            if outcome.Failed? then
              || outcome.error == RowWidth
              || (last.Tick? && OwnFault(adapter, repack, cell, step, last.assemble, last.raw, outcome.error))
            else
              && OnTrack(adapter, repack, first, events)
              && (last.Tick? ==> GivesAll(adapter, repack, cell, step, last.assemble, last.raw))
              && (outcome.Assembled? ==> Stacked(adapter, outcome.payload, HistoriesOf(adapter, repack, first, events), 0))
              && (outcome.Assembled? <==> last.Tick? && last.assemble)
  {
    hide DoTick, Tracks, Stacked, RecordFrom, HistoriesOf, ChunkStart, GivesAll, OwnFault, Sound;
    var before := events[..|events| - 1];
    var cell := After(adapter, repack, first, before);
    HistoriesGrow(adapter, repack, first, events);
    match events[|events| - 1]
    case Tick(assemble, raw) =>
      TickTracks(adapter, repack, cell, first + Ticks(before), assemble, raw, HistoriesOf(adapter, repack, first, before));
    case Chunk(rows) =>
      RecordKeepsWindows(adapter, cell, rows, ChunkStart(cell));
      RecordFails(adapter, cell, rows, ChunkStart(cell));
  }

  lemma {:induction false} RecordFails(adapter: Adapter, cell: Cell, rows: seq<Row>, start: int)
    ensures RecordFrom(adapter, cell, rows, start).1.Err? ==> RecordFrom(adapter, cell, rows, start).1.error == RowWidth
    decreases |rows|
  {
    if rows != [] {
      RecordFails(adapter, Record(adapter, cell, rows[0], start).0, rows[1..], start + 1);
    }
  }

  /** After every clean run, under any transform, the windows hold exactly the frames its steps gave. */
  lemma {:induction false} CleanRunOnTrack(adapter: Adapter, repack: Repack, first: int, events: seq<Event>)
    requires Sound(adapter) && Clean(adapter, repack, first, events)
    ensures OnTrack(adapter, repack, first, events)
    decreases |events|
  {
    hide Do, Sound, OnTrack;
    if events == [] {
      NothingSeen(adapter, repack, first);
    } else {
      CleanRunOnTrack(adapter, repack, first, events[..|events| - 1]);
      EventOnTrack(adapter, repack, first, events);
    }
  }

  lemma NothingSeen(adapter: Adapter, repack: Repack, first: int)
    requires Sound(adapter)
    ensures OnTrack(adapter, repack, first, [])
  {
  }

  /** Each env step of a clean run gave each stacked input one frame: the `n`-th event, if a step, its own. */
  lemma {:induction false} GivenAt(adapter: Adapter, repack: Repack, first: int, events: seq<Event>, j: nat, n: nat)
    requires Sound(adapter) && Clean(adapter, repack, first, events) && j < |adapter.stacked|
    requires n < |events| && events[n].Tick?
    ensures |Given(adapter, repack, first, events, j)| == Ticks(events)
    ensures Ticks(events[..n]) < Ticks(events)
    ensures GivenBy(adapter, repack, first, events[..n], events[n].assemble, events[n].raw, j)
            == Some(Given(adapter, repack, first, events, j)[Ticks(events[..n])])
    decreases |events|
  {
    hide Do, Sound, FrameGiven, OnTrack;
    var before := events[..|events| - 1];
    OneFramePerTick(adapter, repack, first, events, j);
    OneFramePerTick(adapter, repack, first, before, j);
    if n < |before| {
      assert before[..n] == events[..n];
      GivenAt(adapter, repack, first, before, j, n);
    }
  }

  lemma {:induction false} OneFramePerTick(adapter: Adapter, repack: Repack, first: int, events: seq<Event>, j: nat)
    requires Sound(adapter) && Clean(adapter, repack, first, events) && j < |adapter.stacked|
    ensures |Given(adapter, repack, first, events, j)| == Ticks(events)
    ensures events != [] && events[|events| - 1].Tick? ==>
              GivenBy(adapter, repack, first, events[..|events| - 1], events[|events| - 1].assemble, events[|events| - 1].raw, j).Some?
    decreases |events|
  {
    hide Do, Sound, FrameGiven, OnTrack;
    if events != [] {
      OneFramePerTick(adapter, repack, first, events[..|events| - 1], j);
      CleanRunOnTrack(adapter, repack, first, events[..|events| - 1]);
      EventOnTrack(adapter, repack, first, events);
    }
  }

  // ----- What a prediction stacks

  /** The last event of the run predicted, and gave this payload. */
  ghost predicate Predicted(adapter: Adapter, repack: Repack, first: int, events: seq<Event>, payload: Payload) {
    && events != []
    && LastOutcome(adapter, repack, first, events) == Assembled(payload)
    && Clean(adapter, repack, first, events[..|events| - 1])
  }

  lemma PredictedStack(adapter: Adapter, repack: Repack, first: int, events: seq<Event>, payload: Payload, j: nat)
    requires Sound(adapter) && j < |adapter.stacked| && Predicted(adapter, repack, first, events, payload)
    ensures StackedAt(adapter, payload, j, Given(adapter, repack, first, events, j))
    ensures events[|events| - 1].Tick? && events[|events| - 1].assemble
  {
    hide Do, Sound, StackedAt, OnTrack;
    CleanRunOnTrack(adapter, repack, first, events[..|events| - 1]);
    EventOnTrack(adapter, repack, first, events);
    assert HistoriesOf(adapter, repack, first, events)[j] == Given(adapter, repack, first, events, j);
  }

  /** The slots of a history's stack are the frames it looks at. */
  lemma StackSlots(adapter: Adapter, j: nat, hist: seq<Tensor>)
    requires Sound(adapter) && j < |adapter.stacked|
    requires hist != [] && PadFrame(hist[0], PlanOf(adapter, j)).Ok? && HistoryStack(adapter, j, hist).Ok?
    ensures var entry := adapter.stacked[j];
            var stack := HistoryStack(adapter, j, hist).value;
            && |GatherOffsets(entry)| == entry.depth
            && (forall k :: 0 <= k < entry.depth ==> GatherOffsets(entry)[k] <= 0)
            && stack.shape != [] && stack.shape[0] == entry.depth
            && Unstack(stack) == Look(hist, PadFrame(hist[0], PlanOf(adapter, j)).value, GatherOffsets(entry))
  {
    var entry := adapter.stacked[j];
    assert IsEntry(adapter.plans, entry);
    GatherReadsHistory(hist, hist[0], entry, PlanOf(adapter, j));
    UnstackStack(Look(hist, PadFrame(hist[0], PlanOf(adapter, j)).value, GatherOffsets(entry)));
  }

  /**
   * Under any transform, slot by slot: the stack returned at step `s` holds the
   * frame given at step `s + offset`, or the pad of the first frame given before
   * the first step.
   */
  lemma StackShowsWhatWasGiven(
      adapter: Adapter, repack: Repack, first: int, events: seq<Event>, payload: Payload, j: nat)
    requires Sound(adapter) && j < |adapter.stacked| && Predicted(adapter, repack, first, events, payload)
    ensures var entry := adapter.stacked[j];
            var given := Given(adapter, repack, first, events, j);
            && given != [] && |given| == Ticks(events) && PadFrame(given[0], PlanOf(adapter, j)).Ok?
            && IsPad(PadFrame(given[0], PlanOf(adapter, j)).value, given[0], PlanOf(adapter, j))
            && entry.placement in payload && payload[entry.placement].Dense?
            && var stack := payload[entry.placement].tensor;
               && |GatherOffsets(entry)| == entry.depth
               && (forall k :: 0 <= k < entry.depth ==> GatherOffsets(entry)[k] <= 0)
               && stack.shape != [] && stack.shape[0] == entry.depth
               && Unstack(stack) == Look(given, PadFrame(given[0], PlanOf(adapter, j)).value, GatherOffsets(entry))
  {
    hide Do, Clean, Given, Look, IsPad, PadFrame;
    PredictedStack(adapter, repack, first, events, payload, j);
    PadIsAsDeclared(Given(adapter, repack, first, events, j)[0], PlanOf(adapter, j));
    StackSlots(adapter, j, Given(adapter, repack, first, events, j));
    GivenCounts(adapter, repack, first, events, payload, j);
  }

  lemma GivenCounts(adapter: Adapter, repack: Repack, first: int, events: seq<Event>, payload: Payload, j: nat)
    requires Sound(adapter) && j < |adapter.stacked| && Predicted(adapter, repack, first, events, payload)
    ensures |Given(adapter, repack, first, events, j)| == Ticks(events)
  {
    hide Do, Sound, Given;
    OneFramePerTick(adapter, repack, first, events, j);
  }

  /** The raw observations of a run's env steps, in order. */
  ghost function Raws(events: seq<Event>): seq<RawObs>
    decreases |events|
  {
    if events == [] then []
    else
      var last := events[|events| - 1];
      Raws(events[..|events| - 1]) + if last.Tick? then [last.raw] else []
  }

  lemma {:induction false} OneRawPerTick(events: seq<Event>)
    ensures |Raws(events)| == Ticks(events)
    decreases |events|
  {
    if events != [] {
      OneRawPerTick(events[..|events| - 1]);
    }
  }

  /** The frame is what an unbounded log of observations shows at index `i`: the step's own, or before the first step its pad. */
  ghost predicate Shows(image: ImagePlan, raws: seq<RawObs>, i: int, frame: Tensor)
    requires raws != [] && i < |raws|
  {
    if 0 <= i then image.apply(raws[i]) == Some(Dense(frame))
    else
      match image.apply(raws[0])
      case Some(Dense(first)) => IsPad(frame, first, image)
      case _ => false
  }

  // ----- Horizon invariance

  /** The stack in the payload shows the plan's own frames of the steps at the offsets. */
  ghost predicate ShowsTheSteps(adapter: Adapter, events: seq<Event>, payload: Payload, j: nat)
    requires Sound(adapter) && j < |adapter.stacked|
  {
    var entry := adapter.stacked[j];
    var raws := Raws(events);
    && raws != []
    && entry.placement in payload && payload[entry.placement].Dense?
    && var stack := payload[entry.placement].tensor;
       && |GatherOffsets(entry)| == entry.depth
       && stack.shape != [] && stack.shape[0] == entry.depth
       && forall k :: 0 <= k < entry.depth ==>
            && GatherOffsets(entry)[k] <= 0
            && Shows(PlanOf(adapter, j), raws, |raws| - 1 + GatherOffsets(entry)[k], Unstack(stack)[k])
  }

  /** The run's last step, if it predicts, stacks the plan's own frame: the transform left the slot alone. */
  ghost predicate KeptLast(adapter: Adapter, repack: Repack, first: int, events: seq<Event>, j: nat)
    requires Sound(adapter) && j < |adapter.stacked|
  {
    events != [] && events[|events| - 1].Tick? ==>
      var last := events[|events| - 1];
      FrameOf(PlanOf(adapter, j), last.raw).Ok?
      && GivenBy(adapter, repack, first, events[..|events| - 1], last.assemble, last.raw, j)
         == Some(FrameOf(PlanOf(adapter, j), last.raw).value)
  }

  /** The transform left the `j`-th stacked slot alone at every step of the run. */
  ghost predicate Kept(adapter: Adapter, repack: Repack, first: int, events: seq<Event>, j: nat)
    requires Sound(adapter) && j < |adapter.stacked|
  {
    forall n :: 0 <= n <= |events| ==> KeptLast(adapter, repack, first, events[..n], j)
  }

  /** Then what the steps gave is what they showed. */
  lemma {:induction false} KeptIsSeen(adapter: Adapter, repack: Repack, first: int, events: seq<Event>, j: nat)
    requires Sound(adapter) && j < |adapter.stacked| && Kept(adapter, repack, first, events, j)
    ensures |Given(adapter, repack, first, events, j)| == |Raws(events)|
    ensures forall i :: 0 <= i < |Raws(events)| ==>
              FrameOf(PlanOf(adapter, j), Raws(events)[i]) == Ok(Given(adapter, repack, first, events, j)[i])
    decreases |events|
  {
    hide Run, Sound, FrameGiven, FrameOf;
    if events != [] {
      var before := events[..|events| - 1];
      assert events[..|events|] == events;
      assert KeptLast(adapter, repack, first, events, j);
      forall n | 0 <= n <= |before| ensures KeptLast(adapter, repack, first, before[..n], j) {
        assert before[..n] == events[..n];
      }
      KeptIsSeen(adapter, repack, first, before, j);
    }
  }

  /**
   * Slot by slot, the stack returned at step `s` holds the frames of the steps
   * `s + offset`, or the episode's pad before its first step, whatever earlier
   * steps were predicted at or only observed, and whatever chunks came back.
   */
  lemma StackShowsTheSteps(
      adapter: Adapter, repack: Repack, first: int, events: seq<Event>, payload: Payload, j: nat)
    requires Sound(adapter) && j < |adapter.stacked|
    requires Predicted(adapter, repack, first, events, payload) && Kept(adapter, repack, first, events, j)
    ensures ShowsTheSteps(adapter, events, payload, j)
  {
    hide Predicted, Given, Raws, Kept, Sound, PadFrame, IsPad;
    StackShowsWhatWasGiven(adapter, repack, first, events, payload, j);
    KeptIsSeen(adapter, repack, first, events, j);
    var given := Given(adapter, repack, first, events, j);
    assert FrameOf(PlanOf(adapter, j), Raws(events)[0]) == Ok(given[0]);
  }

  /** The newest slot of a stack is the frame the predicting step gave. */
  lemma NewestSlot(adapter: Adapter, repack: Repack, first: int, events: seq<Event>, payload: Payload, j: nat)
    requires Sound(adapter) && j < |adapter.stacked|
    requires Predicted(adapter, repack, first, events, payload) && ShowsTheSteps(adapter, events, payload, j)
    ensures KeptLast(adapter, repack, first, events, j)
  {
    hide Predicted, Look, GatherOffsets, Sound, GivenBy, Given, Unstack, IsPad;
    PredictedStack(adapter, repack, first, events, payload, j);
    LastGiven(adapter, repack, first, events, payload, j);
    NewestOffset(adapter, j);
    LooksAtNewest(adapter, repack, first, events, payload, j);
    assert Raws(events)[|Raws(events)| - 1] == events[|events| - 1].raw;
  }

  lemma LastGiven(adapter: Adapter, repack: Repack, first: int, events: seq<Event>, payload: Payload, j: nat)
    requires Sound(adapter) && j < |adapter.stacked| && Predicted(adapter, repack, first, events, payload)
    requires events[|events| - 1].Tick?
    ensures var given, last := Given(adapter, repack, first, events, j), events[|events| - 1];
            given != [] && GivenBy(adapter, repack, first, events[..|events| - 1], last.assemble, last.raw, j)
                           == Some(given[|given| - 1])
  {
    hide Do, Sound, FrameGiven;
    OneFramePerTick(adapter, repack, first, events, j);
  }

  lemma NewestOffset(adapter: Adapter, j: nat)
    requires Sound(adapter) && j < |adapter.stacked|
    ensures var offsets := GatherOffsets(adapter.stacked[j]);
            |offsets| == adapter.stacked[j].depth >= 1 && offsets[|offsets| - 1] == 0
  {
    assert IsEntry(adapter.plans, adapter.stacked[j]);
  }

  lemma LooksAtNewest(adapter: Adapter, repack: Repack, first: int, events: seq<Event>, payload: Payload, j: nat)
    requires Sound(adapter) && j < |adapter.stacked| && Predicted(adapter, repack, first, events, payload)
    ensures var entry, given := adapter.stacked[j], Given(adapter, repack, first, events, j);
            && given != [] && entry.placement in payload && payload[entry.placement].Dense?
            && var stack := payload[entry.placement].tensor;
               && stack.shape != [] && stack.shape[0] == entry.depth >= 1
               && Unstack(stack)[entry.depth - 1] == given[|given| - 1]
  {
    hide Predicted, Given, Sound;
    StackShowsWhatWasGiven(adapter, repack, first, events, payload, j);
    NewestOffset(adapter, j);
  }

  /**
   * Horizon invariance, exactly: every prediction of every run stacks the frames
   * of the steps themselves, if and only if at every prediction of every run the
   * encoding transform leaves the stacked slot with the frame its plan produced.
   */
  lemma HorizonInvariantIff(adapter: Adapter, repack: Repack, j: nat)
    requires Sound(adapter) && j < |adapter.stacked|
    ensures (forall first, events, payload :: Predicted(adapter, repack, first, events, payload) ==>
               ShowsTheSteps(adapter, events, payload, j))
            <==> (forall first, events, payload :: Predicted(adapter, repack, first, events, payload) ==>
                    KeptLast(adapter, repack, first, events, j))
  {
    hide Predicted, KeptLast, ShowsTheSteps, Sound, Kept;
    if forall first, events, payload :: Predicted(adapter, repack, first, events, payload) ==>
         KeptLast(adapter, repack, first, events, j) {
      forall first, events, payload | Predicted(adapter, repack, first, events, payload)
        ensures ShowsTheSteps(adapter, events, payload, j)
      {
        KeptThroughout(adapter, repack, first, events, payload, j);
        StackShowsTheSteps(adapter, repack, first, events, payload, j);
      }
    }
    if forall first, events, payload :: Predicted(adapter, repack, first, events, payload) ==>
         ShowsTheSteps(adapter, events, payload, j) {
      forall first, events, payload | Predicted(adapter, repack, first, events, payload)
        ensures KeptLast(adapter, repack, first, events, j)
      {
        NewestSlot(adapter, repack, first, events, payload, j);
      }
    }
  }

  /** An observed step keeps the slot by itself; a predicted one ends a run that predicts. */
  lemma KeptThroughout(adapter: Adapter, repack: Repack, first: int, events: seq<Event>, payload: Payload, j: nat)
    requires Sound(adapter) && j < |adapter.stacked| && Predicted(adapter, repack, first, events, payload)
    requires forall first, events, payload :: Predicted(adapter, repack, first, events, payload) ==>
               KeptLast(adapter, repack, first, events, j)
    ensures Kept(adapter, repack, first, events, j)
  {
    hide Do, Sound, KeptLast;
    forall n | 0 <= n <= |events| ensures KeptLast(adapter, repack, first, events[..n], j) {
      CleanPrefix(adapter, repack, first, events, n);
      PrefixKept(adapter, repack, first, events[..n], j);
    }
  }

  lemma {:induction false} CleanPrefix(adapter: Adapter, repack: Repack, first: int, events: seq<Event>, n: nat)
    requires n <= |events| && Clean(adapter, repack, first, events)
    ensures Clean(adapter, repack, first, events[..n])
    decreases |events|
  {
    hide LastOutcome;
    if n == |events| {
      assert events[..n] == events;
    } else {
      assert events[..|events| - 1][..n] == events[..n];
      CleanPrefix(adapter, repack, first, events[..|events| - 1], n);
    }
  }

  lemma PrefixKept(adapter: Adapter, repack: Repack, first: int, events: seq<Event>, j: nat)
    requires Sound(adapter) && j < |adapter.stacked| && Clean(adapter, repack, first, events)
    requires forall first, events, payload :: Predicted(adapter, repack, first, events, payload) ==>
               KeptLast(adapter, repack, first, events, j)
    ensures KeptLast(adapter, repack, first, events, j)
  {
    hide Do, Sound, OnTrack, FrameOf;
    if events != [] && events[|events| - 1].Tick? {
      CleanRunOnTrack(adapter, repack, first, events[..|events| - 1]);
      EventOnTrack(adapter, repack, first, events);
      var outcome := LastOutcome(adapter, repack, first, events);
      if outcome.Assembled? {
        assert Predicted(adapter, repack, first, events, outcome.payload);
      } else {
        OneFramePerTick(adapter, repack, first, events, j);
      }
    }
  }

  /** A transform that never touches the stacked slots keeps them in every run. */
  lemma KeepingTransformKeeps(adapter: Adapter, repack: Repack, first: int, events: seq<Event>, j: nat)
    requires Sound(adapter) && KeepsStacked(adapter, repack) && j < |adapter.stacked|
    requires Clean(adapter, repack, first, events)
    ensures Kept(adapter, repack, first, events, j)
  {
    hide Do, Sound, KeptLast, KeepsStacked;
    forall n | 0 <= n <= |events| ensures KeptLast(adapter, repack, first, events[..n], j) {
      CleanPrefix(adapter, repack, first, events, n);
      KeepsLast(adapter, repack, first, events[..n], j);
    }
  }

  lemma KeepsLast(adapter: Adapter, repack: Repack, first: int, events: seq<Event>, j: nat)
    requires Sound(adapter) && KeepsStacked(adapter, repack) && j < |adapter.stacked|
    requires Clean(adapter, repack, first, events)
    ensures KeptLast(adapter, repack, first, events, j)
  {
    hide Do, Sound, KeepsStacked;
    if events != [] && events[|events| - 1].Tick? {
      OneFramePerTick(adapter, repack, first, events, j);
      var before, last := events[..|events| - 1], events[|events| - 1];
      if last.assemble {
        SlotIsThePlans(adapter, repack, After(adapter, repack, first, before), first + Ticks(before), last.raw, j);
      }
    }
  }

  lemma SlotIsThePlans(adapter: Adapter, repack: Repack, cell: Cell, step: int, raw: RawObs, j: nat)
    requires Sound(adapter) && KeepsStacked(adapter, repack) && j < |adapter.stacked|
    requires FrameGiven(adapter, repack, cell, step, true, raw, j).Some?
    ensures FrameOf(PlanOf(adapter, j), raw) == Ok(FrameGiven(adapter, repack, cell, step, true, raw, j).value)
  {
    hide Transform;
    var read := ReadPrevious(adapter, Advance(cell, step).0, step).1;
    assert IsEntry(adapter.plans, adapter.stacked[j]);
    TransformPlaces(adapter.plans, |adapter.plans|, raw, read.value, adapter.stacked[j].planIndex);
  }

  /**
   * Two runs return the same stack if and only if they look at the same frames as
   * given, step by step.
   */
  lemma SameStackIff(
      adapter: Adapter, repack: Repack, first: int, events: seq<Event>, payload: Payload,
      repack': Repack, first': int, events': seq<Event>, payload': Payload, j: nat)
    requires Sound(adapter) && j < |adapter.stacked|
    requires Predicted(adapter, repack, first, events, payload)
    requires Predicted(adapter, repack', first', events', payload')
    ensures var entry := adapter.stacked[j];
            var given, given' := Given(adapter, repack, first, events, j), Given(adapter, repack', first', events', j);
            && given != [] && given' != []
            && PadFrame(given[0], PlanOf(adapter, j)).Ok? && PadFrame(given'[0], PlanOf(adapter, j)).Ok?
            && (forall k :: 0 <= k < |GatherOffsets(entry)| ==> GatherOffsets(entry)[k] <= 0)
            && entry.placement in payload && entry.placement in payload'
            && (payload[entry.placement] == payload'[entry.placement] <==>
                  Look(given, PadFrame(given[0], PlanOf(adapter, j)).value, GatherOffsets(entry))
                  == Look(given', PadFrame(given'[0], PlanOf(adapter, j)).value, GatherOffsets(entry)))
  {
    hide Predicted, Given, Look, GatherOffsets;
    StackShowsWhatWasGiven(adapter, repack, first, events, payload, j);
    StackShowsWhatWasGiven(adapter, repack', first', events', payload', j);
    StackedIsStackUp(adapter, repack, first, events, payload, j);
    StackedIsStackUp(adapter, repack', first', events', payload', j);
  }

  lemma StackedIsStackUp(adapter: Adapter, repack: Repack, first: int, events: seq<Event>, payload: Payload, j: nat)
    requires Sound(adapter) && j < |adapter.stacked| && Predicted(adapter, repack, first, events, payload)
    ensures var given, p := Given(adapter, repack, first, events, j), adapter.stacked[j].placement;
            && given != [] && PadFrame(given[0], PlanOf(adapter, j)).Ok?
            && (forall k :: 0 <= k < |GatherOffsets(adapter.stacked[j])| ==> GatherOffsets(adapter.stacked[j])[k] <= 0)
            && p in payload && payload[p].Dense?
            && Ok(payload[p].tensor)
               == StackUp(Look(given, PadFrame(given[0], PlanOf(adapter, j)).value, GatherOffsets(adapter.stacked[j])))
  {
    hide Predicted, Given, Look, StackUp;
    StackShowsWhatWasGiven(adapter, repack, first, events, payload, j);
    PredictedStack(adapter, repack, first, events, payload, j);
  }

  /**
   * Two runs over the same observations return the same stacks wherever both
   * predict, however differently they chose which steps to predict at.
   */
  lemma MarksDoNotMatter(
      adapter: Adapter, repack: Repack, first: int, events: seq<Event>, payload: Payload,
      repack': Repack, first': int, events': seq<Event>, payload': Payload, j: nat)
    requires Sound(adapter) && j < |adapter.stacked|
    requires Predicted(adapter, repack, first, events, payload) && Kept(adapter, repack, first, events, j)
    requires Predicted(adapter, repack', first', events', payload') && Kept(adapter, repack', first', events', j)
    requires Raws(events) == Raws(events')
    ensures adapter.stacked[j].placement in payload && adapter.stacked[j].placement in payload'
    ensures payload[adapter.stacked[j].placement] == payload'[adapter.stacked[j].placement]
  {
    hide Predicted, Kept, Given, Raws, Look, FrameOf;
    SameStackIff(adapter, repack, first, events, payload, repack', first', events', payload', j);
    KeptIsSeen(adapter, repack, first, events, j);
    KeptIsSeen(adapter, repack', first', events', j);
    var given, given' := Given(adapter, repack, first, events, j), Given(adapter, repack', first', events', j);
    forall i | 0 <= i < |given| ensures given[i] == given'[i] {
      assert FrameOf(PlanOf(adapter, j), Raws(events)[i]) == Ok(given[i]);
      assert FrameOf(PlanOf(adapter, j), Raws(events')[i]) == Ok(given'[i]);
    }
    assert given == given';
  }

  /**
   * A window never runs short, under any transform: after a clean run an event
   * fails only for what was observed or recorded, or because the transform took a
   * stacked slot out of the payload.
   */
  lemma OnlyTheObservationFails(adapter: Adapter, repack: Repack, first: int, events: seq<Event>)
    requires Sound(adapter) && events != []
    requires Clean(adapter, repack, first, events[..|events| - 1])
    ensures var outcome := LastOutcome(adapter, repack, first, events);
            var before, last := events[..|events| - 1], events[|events| - 1];
            outcome.Failed? ==>
              && !outcome.error.TooFewFrames? && !outcome.error.NotConsecutive? && outcome.error != NotAnImage
              && (outcome.error == MissingSlot ==>
                    && last.Tick? && last.assemble
                    && var payload := TickPayload(adapter, repack, After(adapter, repack, first, before), first + Ticks(before), last.raw);
                       payload.Some? && exists k :: 0 <= k < |adapter.stacked| && adapter.stacked[k].placement !in payload.value)
  {
    hide Do, Sound, Clean, OnTrack, TickPayload;
    CleanRunOnTrack(adapter, repack, first, events[..|events| - 1]);
    EventOnTrack(adapter, repack, first, events);
  }

  /** A contiguous depth-d stack is the strided one over the offsets 1-d, ..., 0. */
  lemma ContiguousIsStrided(image: ImagePlan, i: nat, frames: seq<Tensor>)
    requires image.offsets.None? && image.stack > 1
    requires |frames| == image.stack
    ensures var strided := image.(offsets := Some(seq(image.stack, k => k + 1 - image.stack)));
            && WindowLaw(strided.stack, strided.offsets)
            && EntryOf(strided, i).span == EntryOf(image, i).span
            && GatherOffsets(EntryOf(strided, i)) == GatherOffsets(EntryOf(image, i))
            && Picked(frames, EntryOf(strided, i)) == Picked(frames, EntryOf(image, i))
  {
    var offsets := seq(image.stack, k => k + 1 - image.stack);
    PickAll(frames, offsets, |frames|);
    assert offsets[..|frames|] == offsets && frames[..|frames|] == frames;
  }

  lemma {:induction false} PickAll(frames: seq<Tensor>, offsets: seq<int>, n: nat)
    requires n <= |frames| == |offsets|
    requires forall k :: 0 <= k < |frames| ==> offsets[k] == k + 1 - |frames|
    ensures PickEach(frames, offsets[..n]) == Ok(frames[..n])
  {
    if n > 0 {
      PickAll(frames, offsets, n - 1);
      assert offsets[..n][..n - 1] == offsets[..n - 1];
      assert frames[..n] == frames[..n - 1] + [frames[n - 1]];
    }
  }
}
