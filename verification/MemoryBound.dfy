/**
 * What an episode can hold: the admission budget of
 * crates/rlmesh-adapters/src/plans.rs (`history_windows`) bounds `state_bytes`
 * (crates/rlmesh-adapters/src/stateful.rs) in every interleaving of paced runs.
 */
module MemoryBound {
  import opened Wrappers
  import opened Sums
  import opened Tensors
  import opened Paths
  import opened Plans
  import opened Windows
  import opened Episodes
  import opened FrameBuffers
  import opened Runs
  import opened WindowTracking
  import opened HorizonInvariance
  import opened ChunkProtocol
  import opened ActionRows
  import opened Interleaving
  import opened Lifetimes

  // ----- Windows, in every run

  /** A property of the frames pushed to each placement. */
  type Fits = (nat, Tensor) -> bool

  /** A pad made of a fitting frame fits. */
  ghost predicate PadsFit(adapter: Adapter, fits: Fits)
    requires Sound(adapter)
  {
    forall j, frame: Tensor :: 0 <= j < |adapter.stacked| && fits(j, frame) && PadFrame(frame, PlanOf(adapter, j)).Ok? ==>
      fits(j, PadFrame(frame, PlanOf(adapter, j)).value)
  }

  /** A window holds nothing, or exactly `span` frames; and its frames fit. */
  ghost predicate FilledAt(adapter: Adapter, windows: map<NodePath, seq<Tensor>>, fits: Fits, j: nat)
    requires j < |adapter.stacked|
  {
    var window := WindowAt(windows, adapter.stacked[j].placement);
    && (window == [] || |window| == adapter.stacked[j].span)
    && forall i :: 0 <= i < |window| ==> fits(j, window[i])
  }

  ghost predicate Filled(adapter: Adapter, windows: map<NodePath, seq<Tensor>>, fits: Fits) {
    forall j :: 0 <= j < |adapter.stacked| ==> FilledAt(adapter, windows, fits, j)
  }

  lemma PushedIsFilled(frames: seq<Tensor>, frame: Tensor, span: nat, image: ImagePlan, fits: Fits, j: nat)
    requires span >= 1 && (frames == [] || |frames| == span) && fits(j, frame)
    requires forall i :: 0 <= i < |frames| ==> fits(j, frames[i])
    requires PadFrame(frame, image).Ok? ==> fits(j, PadFrame(frame, image).value)
    ensures var pushed := Pushed(frames, frame, span, image);
            pushed.Ok? ==> |pushed.value| == span && forall i :: 0 <= i < span ==> fits(j, pushed.value[i])
  {
    if frames == [] && PadFrame(frame, image).Ok? {
      FirstPush(frame, span, image);
    }
  }

  lemma PushFills(adapter: Adapter, windows: map<NodePath, seq<Tensor>>, j: nat, frame: Tensor, fits: Fits)
    requires Sound(adapter) && PadsFit(adapter, fits) && Filled(adapter, windows, fits)
    requires j < |adapter.stacked| && fits(j, frame)
    ensures Filled(adapter, PushInto(adapter, windows, adapter.stacked[j], frame).0, fits)
  {
    hide Pushed, PadFrame;
    var entry := adapter.stacked[j];
    assert IsEntry(adapter.plans, entry) && FilledAt(adapter, windows, fits, j);
    PushedIsFilled(WindowAt(windows, entry.placement), frame, entry.span, PlanOf(adapter, j), fits, j);
    var after := PushInto(adapter, windows, entry, frame).0;
    forall k | 0 <= k < |adapter.stacked| ensures FilledAt(adapter, after, fits, k) {
      assert FilledAt(adapter, windows, fits, k);
      assert k != j ==> adapter.stacked[k].placement != entry.placement;
    }
  }

  lemma SlotFills(adapter: Adapter, windows: map<NodePath, seq<Tensor>>, payload: Payload, j: nat, fits: Fits)
    requires Sound(adapter) && PadsFit(adapter, fits) && Filled(adapter, windows, fits) && j < |adapter.stacked|
    requires SlotFrame(adapter, payload, j).Some? ==> fits(j, SlotFrame(adapter, payload, j).value)
    ensures Filled(adapter, StackSlot(adapter, windows, payload, adapter.stacked[j]).windows, fits)
  {
    hide PushInto, Gathered, Filled, Sound, PadsFit;
    if SlotFrame(adapter, payload, j).Some? {
      PushFills(adapter, windows, j, SlotFrame(adapter, payload, j).value, fits);
    }
  }

  lemma {:induction false} StackFills(adapter: Adapter, windows: map<NodePath, seq<Tensor>>, payload: Payload, j: nat, fits: Fits)
    requires Sound(adapter) && PadsFit(adapter, fits) && Filled(adapter, windows, fits) && j <= |adapter.stacked|
    requires forall k :: j <= k < |adapter.stacked| && SlotFrame(adapter, payload, k).Some? ==>
               fits(k, SlotFrame(adapter, payload, k).value)
    ensures Filled(adapter, StackFrom(adapter, windows, payload, j).0, fits)
    decreases |adapter.stacked| - j
  {
    hide StackSlot, Filled, PadsFit;
    if j < |adapter.stacked| {
      SlotFills(adapter, windows, payload, j, fits);
      var done := StackSlot(adapter, windows, payload, adapter.stacked[j]);
      if done.Go? {
        forall k | j + 1 <= k < |adapter.stacked| ensures SlotFrame(adapter, done.payload, k) == SlotFrame(adapter, payload, k) {
          StackSlotKeeps(adapter, windows, payload, j, k);
        }
        StackFills(adapter, done.windows, done.payload, j + 1, fits);
      }
    }
  }

  lemma {:induction false} PushesFill(adapter: Adapter, windows: map<NodePath, seq<Tensor>>, frames: seq<Tensor>, j: nat, fits: Fits)
    requires Sound(adapter) && PadsFit(adapter, fits) && Filled(adapter, windows, fits)
    requires j <= |adapter.stacked| == |frames| && forall k :: j <= k < |frames| ==> fits(k, frames[k])
    ensures Filled(adapter, PushFrom(adapter, windows, frames, j).0, fits)
    decreases |adapter.stacked| - j
  {
    hide PushInto, Filled, PadsFit, Sound;
    if j < |adapter.stacked| {
      PushFills(adapter, windows, j, frames[j], fits);
      PushesFill(adapter, PushInto(adapter, windows, adapter.stacked[j], frames[j]).0, frames, j + 1, fits);
    }
  }

  /** The frames a step gives fit. */
  ghost predicate GivesFit(
      adapter: Adapter, repack: Repack, cell: Cell, step: int, assemble: bool, raw: RawObs, fits: Fits)
    requires Sound(adapter)
  {
    forall j :: 0 <= j < |adapter.stacked| ==>
      var frame := FrameGiven(adapter, repack, cell, step, assemble, raw, j);
      frame.Some? ==> fits(j, frame.value)
  }

  /** An env step, failed or not, keeps the windows filled. */
  lemma TickFills(
      adapter: Adapter, repack: Repack, cell: Cell, step: int, assemble: bool, raw: RawObs, fits: Fits)
    requires Sound(adapter) && PadsFit(adapter, fits) && Filled(adapter, WindowsOf(cell), fits)
    requires GivesFit(adapter, repack, cell, step, assemble, raw, fits)
    ensures Filled(adapter, WindowsOf(DoTick(adapter, repack, cell, step, assemble, raw).0), fits)
  {
    hide Transform, StackFrom, HistoryFrames, PushFrom, Filled, ReadPrevious, Sound, PadsFit;
    var advanced := Advance(cell, step).0;
    assert WindowsOf(advanced) == WindowsOf(cell);
    ReadKeepsWindows(adapter, advanced, step);
    var (read, r) := ReadPrevious(adapter, advanced, step);
    if assemble && r.Ok? && Repacked(adapter, repack, raw, r.value).Some? {
      var payload := Repacked(adapter, repack, raw, r.value).value;
      forall k | 0 <= k < |adapter.stacked| && SlotFrame(adapter, payload, k).Some?
        ensures fits(k, SlotFrame(adapter, payload, k).value)
      {
        assert FrameGiven(adapter, repack, cell, step, true, raw, k) == SlotFrame(adapter, payload, k);
      }
      StackFills(adapter, WindowsOf(read), payload, 0, fits);
    } else if !assemble {
      ObserveFills(adapter, repack, cell, step, raw, fits);
    }
  }

  lemma ObserveFills(adapter: Adapter, repack: Repack, cell: Cell, step: int, raw: RawObs, fits: Fits)
    requires Sound(adapter) && PadsFit(adapter, fits) && Filled(adapter, WindowsOf(cell), fits)
    requires GivesFit(adapter, repack, cell, step, false, raw, fits)
    ensures Filled(adapter, WindowsOf(Observe(adapter, Advance(cell, step).0, raw).0), fits)
  {
    hide HistoryFrames, PushFrom, Filled, Sound, PadsFit;
    var frames := HistoryFrames(adapter, raw, |adapter.stacked|);
    if adapter.stacked != [] && frames.Ok? {
      HistoryFramesAre(adapter, raw, |adapter.stacked|);
      forall k | 0 <= k < |adapter.stacked| ensures fits(k, frames.value[k]) {
        assert FrameGiven(adapter, repack, cell, step, false, raw, k) == Some(frames.value[k]);
      }
      PushesFill(adapter, WindowsOf(cell), frames.value, 0, fits);
    }
  }

  /** Every frame a run's steps give fits. */
  ghost predicate RunGivesFit(adapter: Adapter, repack: Repack, first: int, events: seq<Event>, fits: Fits)
    requires Sound(adapter)
    decreases |events|
  {
    events == [] ||
    var before := events[..|events| - 1];
    var last := events[|events| - 1];
    && RunGivesFit(adapter, repack, first, before, fits)
    && (last.Tick? ==>
          GivesFit(adapter, repack, After(adapter, repack, first, before), first + Ticks(before), last.assemble, last.raw, fits))
  }

  lemma {:induction false} RunFills(adapter: Adapter, repack: Repack, first: int, events: seq<Event>, fits: Fits)
    requires Sound(adapter) && PadsFit(adapter, fits) && RunGivesFit(adapter, repack, first, events, fits)
    ensures Filled(adapter, WindowsOf(After(adapter, repack, first, events)), fits)
    decreases |events|
  {
    hide DoTick, RecordFrom, ChunkStart, GivesFit, Sound, PadsFit;
    if events != [] {
      var before := events[..|events| - 1];
      RunFills(adapter, repack, first, before, fits);
      var cell := After(adapter, repack, first, before);
      match events[|events| - 1]
      case Tick(assemble, raw) => TickFills(adapter, repack, cell, first + Ticks(before), assemble, raw, fits);
      case Chunk(rows) => RecordKeepsWindows(adapter, cell, rows, ChunkStart(cell));
    }
  }

  lemma {:induction false} AnythingFits(adapter: Adapter, repack: Repack, first: int, events: seq<Event>)
    requires Sound(adapter)
    ensures RunGivesFit(adapter, repack, first, events, (j, frame) => true)
    decreases |events|
  {
    hide Run, FrameGiven, Sound;
    if events != [] {
      AnythingFits(adapter, repack, first, events[..|events| - 1]);
    }
  }

  /**
   * After every run, under any transform and with failed events included, a
   * window is empty or holds exactly `span` frames.
   */
  lemma WindowHoldsSpan(adapter: Adapter, repack: Repack, first: int, events: seq<Event>, j: nat)
    requires Sound(adapter) && j < |adapter.stacked|
    ensures var window := WindowAt(WindowsOf(After(adapter, repack, first, events)), adapter.stacked[j].placement);
            window == [] || |window| == adapter.stacked[j].span
  {
    hide Run, RunGivesFit, Sound;
    AnythingFits(adapter, repack, first, events);
    RunFills(adapter, repack, first, events, (j, frame) => true);
    assert FilledAt(adapter, WindowsOf(After(adapter, repack, first, events)), (j, frame) => true, j);
  }

  /** Only stacked placements have windows. */
  ghost predicate OnlyStacked(adapter: Adapter, windows: map<NodePath, seq<Tensor>>) {
    forall p :: p in windows ==> exists j :: 0 <= j < |adapter.stacked| && adapter.stacked[j].placement == p
  }

  lemma PushOnlyStacked(adapter: Adapter, windows: map<NodePath, seq<Tensor>>, j: nat, frame: Tensor)
    requires OnlyStacked(adapter, windows) && j < |adapter.stacked|
    ensures OnlyStacked(adapter, PushInto(adapter, windows, adapter.stacked[j], frame).0)
  {
    hide Pushed;
  }

  lemma SlotOnlyStacked(adapter: Adapter, windows: map<NodePath, seq<Tensor>>, payload: Payload, j: nat)
    requires OnlyStacked(adapter, windows) && j < |adapter.stacked|
    ensures OnlyStacked(adapter, StackSlot(adapter, windows, payload, adapter.stacked[j]).windows)
  {
    hide PushInto, Gathered, OnlyStacked;
    var p := adapter.stacked[j].placement;
    if p in payload && payload[p].Dense? {
      PushOnlyStacked(adapter, windows, j, payload[p].tensor);
    }
  }

  lemma {:induction false} StackOnlyStacked(adapter: Adapter, windows: map<NodePath, seq<Tensor>>, payload: Payload, j: nat)
    requires OnlyStacked(adapter, windows) && j <= |adapter.stacked|
    ensures OnlyStacked(adapter, StackFrom(adapter, windows, payload, j).0)
    decreases |adapter.stacked| - j
  {
    hide StackSlot, OnlyStacked;
    if j < |adapter.stacked| {
      SlotOnlyStacked(adapter, windows, payload, j);
      var done := StackSlot(adapter, windows, payload, adapter.stacked[j]);
      if done.Go? {
        StackOnlyStacked(adapter, done.windows, done.payload, j + 1);
      }
    }
  }

  lemma {:induction false} PushesOnlyStacked(adapter: Adapter, windows: map<NodePath, seq<Tensor>>, frames: seq<Tensor>, j: nat)
    requires OnlyStacked(adapter, windows) && j <= |adapter.stacked| == |frames|
    ensures OnlyStacked(adapter, PushFrom(adapter, windows, frames, j).0)
    decreases |adapter.stacked| - j
  {
    hide PushInto, OnlyStacked;
    if j < |adapter.stacked| {
      PushOnlyStacked(adapter, windows, j, frames[j]);
      PushesOnlyStacked(adapter, PushInto(adapter, windows, adapter.stacked[j], frames[j]).0, frames, j + 1);
    }
  }

  lemma TickOnlyStacked(adapter: Adapter, repack: Repack, cell: Cell, step: int, assemble: bool, raw: RawObs)
    requires OnlyStacked(adapter, WindowsOf(cell))
    ensures OnlyStacked(adapter, WindowsOf(DoTick(adapter, repack, cell, step, assemble, raw).0))
  {
    hide Transform, StackFrom, HistoryFrames, PushFrom, OnlyStacked, ReadPrevious;
    var advanced := Advance(cell, step).0;
    assert WindowsOf(advanced) == WindowsOf(cell);
    ReadKeepsWindows(adapter, advanced, step);
    var (read, r) := ReadPrevious(adapter, advanced, step);
    if assemble && r.Ok? {
      var transformed := Transform(adapter.plans, |adapter.plans|, raw, r.value);
      if transformed.Ok? && repack(transformed.value).Some? {
        StackOnlyStacked(adapter, WindowsOf(read), repack(transformed.value).value, 0);
      }
    } else if !assemble {
      var frames := HistoryFrames(adapter, raw, |adapter.stacked|);
      if frames.Ok? {
        PushesOnlyStacked(adapter, WindowsOf(advanced), frames.value, 0);
      }
    }
  }

  lemma {:induction false} RunOnlyStacked(adapter: Adapter, repack: Repack, first: int, events: seq<Event>)
    ensures OnlyStacked(adapter, WindowsOf(After(adapter, repack, first, events)))
    decreases |events|
  {
    hide DoTick, RecordFrom, ChunkStart;
    if events != [] {
      var before := events[..|events| - 1];
      RunOnlyStacked(adapter, repack, first, before);
      var cell := After(adapter, repack, first, before);
      match events[|events| - 1]
      case Tick(assemble, raw) => TickOnlyStacked(adapter, repack, cell, first + Ticks(before), assemble, raw);
      case Chunk(rows) => RecordKeepsWindows(adapter, cell, rows, ChunkStart(cell));
    }
  }

  /** Every row of the log has the width the action plan reads. */
  ghost predicate RowsFit(adapter: Adapter, cell: Cell) {
    forall k :: k in OrDefault(cell).actions ==> |OrDefault(cell).actions[k]| == adapter.inDim
  }

  lemma {:induction false} RecordFits(adapter: Adapter, cell: Cell, rows: seq<Row>, start: int)
    requires RowsFit(adapter, cell)
    ensures RowsFit(adapter, RecordFrom(adapter, cell, rows, start).0)
    decreases |rows|
  {
    if rows != [] {
      RecordFits(adapter, Record(adapter, cell, rows[0], start).0, rows[1..], start + 1);
    }
  }

  lemma TickFits(adapter: Adapter, repack: Repack, cell: Cell, step: int, assemble: bool, raw: RawObs)
    requires RowsFit(adapter, cell)
    ensures RowsFit(adapter, DoTick(adapter, repack, cell, step, assemble, raw).0)
  {
    hide AssembleAfterRead, Observe;
    var advanced := Advance(cell, step).0;
    var (read, r) := ReadPrevious(adapter, advanced, step);
    if r.Ok? && read.Some? {
      PipelineKeepsLog(adapter, repack, read, raw, r.value);
    }
    PipelineKeepsLog(adapter, repack, advanced, raw, None);
  }

  lemma {:induction false} RunFits(adapter: Adapter, repack: Repack, first: int, events: seq<Event>)
    ensures RowsFit(adapter, After(adapter, repack, first, events))
    decreases |events|
  {
    hide DoTick, RecordFrom, ChunkStart, RowsFit;
    if events == [] {
      NothingFits(adapter);
    } else {
      var before := events[..|events| - 1];
      RunFits(adapter, repack, first, before);
      var cell := After(adapter, repack, first, before);
      match events[|events| - 1]
      case Tick(assemble, raw) => TickFits(adapter, repack, cell, first + Ticks(before), assemble, raw);
      case Chunk(rows) => RecordFits(adapter, cell, rows, ChunkStart(cell));
    }
  }

  lemma NothingFits(adapter: Adapter)
    ensures RowsFit(adapter, None)
  {
  }

  // ----- Sizes

  /** Every frame the run's steps give has the size its plan announced. */
  ghost predicate PlannedSize(adapter: Adapter, repack: Repack, first: int, events: seq<Event>)
    requires Sound(adapter)
  {
    RunGivesFit(adapter, repack, first, events, Sized(adapter))
  }

  ghost function Sized(adapter: Adapter): Fits {
    (j: nat, frame: Tensor) => j < |adapter.stacked| ==> frame.NBytes() == adapter.stacked[j].frameBytes
  }

  /** The admission budget of one lane: every window full. */
  ghost function WindowBudget(adapter: Adapter, n: nat): nat
    requires n <= |adapter.stacked|
  {
    if n == 0 then 0 else WindowBudget(adapter, n - 1) + Cost(adapter.stacked[n - 1])
  }

  ghost function Cost(entry: StackedPlacement): nat {
    entry.span * entry.frameBytes
  }

  lemma {:induction false} FramesOfOneSize(frames: seq<Tensor>, size: nat)
    requires forall i :: 0 <= i < |frames| ==> frames[i].NBytes() == size
    ensures FramesBytes(frames) == |frames| * size
  {
    if frames != [] {
      FramesOfOneSize(frames[..|frames| - 1], size);
      OneMore(|frames| - 1, size);
    }
  }

  ghost function SlotSet(adapter: Adapter, n: nat): set<NodePath>
    requires n <= |adapter.stacked|
  {
    if n == 0 then {} else SlotSet(adapter, n - 1) + {adapter.stacked[n - 1].placement}
  }

  lemma {:induction false} InSlotSet(adapter: Adapter, n: nat, j: nat)
    requires j < n <= |adapter.stacked|
    ensures adapter.stacked[j].placement in SlotSet(adapter, n)
  {
    if j < n - 1 {
      InSlotSet(adapter, n - 1, j);
    }
  }

  /** Sizes kept only under the first `n` placements total at most those placements' budgets. */
  lemma {:induction false} TotalWithinBudget(adapter: Adapter, sizes: map<NodePath, nat>, n: nat)
    requires n <= |adapter.stacked| && sizes.Keys <= SlotSet(adapter, n)
    requires forall j :: 0 <= j < n && adapter.stacked[j].placement in sizes ==>
               sizes[adapter.stacked[j].placement] <= Cost(adapter.stacked[j])
    ensures Total(sizes) <= WindowBudget(adapter, n)
  {
    hide Cost, Total;
    if n == 0 {
      assert sizes == map[];
      NoSizes<NodePath>();
    } else {
      var p := adapter.stacked[n - 1].placement;
      if p in sizes {
        TotalWithout(sizes, p);
        TotalWithinBudget(adapter, sizes - {p}, n - 1);
      } else {
        TotalWithinBudget(adapter, sizes, n - 1);
      }
    }
  }

  lemma NoSizes<K>()
    ensures Total<K>(map[]) == 0
  {
  }

  lemma WindowSize(adapter: Adapter, repack: Repack, first: int, events: seq<Event>, j: nat)
    requires Sound(adapter) && PlannedSize(adapter, repack, first, events) && j < |adapter.stacked|
    ensures var window := WindowAt(WindowsOf(After(adapter, repack, first, events)), adapter.stacked[j].placement);
            && FramesBytes(window) == |window| * adapter.stacked[j].frameBytes
            && FramesBytes(window) <= Cost(adapter.stacked[j])
  {
    hide Run, RunGivesFit, FramesBytes, Sound;
    SizedPads(adapter);
    RunFills(adapter, repack, first, events, Sized(adapter));
    assert FilledAt(adapter, WindowsOf(After(adapter, repack, first, events)), Sized(adapter), j);
    var window := WindowAt(WindowsOf(After(adapter, repack, first, events)), adapter.stacked[j].placement);
    FramesOfOneSize(window, adapter.stacked[j].frameBytes);
  }

  lemma SizedPads(adapter: Adapter)
    requires Sound(adapter)
    ensures PadsFit(adapter, Sized(adapter))
  {
    hide Sound;
  }

  lemma WindowsBounded(adapter: Adapter, repack: Repack, first: int, events: seq<Event>)
    requires Sound(adapter) && PlannedSize(adapter, repack, first, events)
    ensures WindowBytes(WindowsOf(After(adapter, repack, first, events))) <= WindowBudget(adapter, |adapter.stacked|)
  {
    hide Run, FramesBytes, PlannedSize, Sound;
    var windows := WindowsOf(After(adapter, repack, first, events));
    var sizes := map p | p in windows :: FramesBytes(windows[p]);
    RunOnlyStacked(adapter, repack, first, events);
    forall j | 0 <= j < |adapter.stacked| && adapter.stacked[j].placement in sizes
      ensures sizes[adapter.stacked[j].placement] <= Cost(adapter.stacked[j])
    {
      WindowSize(adapter, repack, first, events, j);
    }
    forall p | p in sizes ensures p in SlotSet(adapter, |adapter.stacked|) {
      var j :| 0 <= j < |adapter.stacked| && adapter.stacked[j].placement == p;
      InSlotSet(adapter, |adapter.stacked|, j);
    }
    TotalWithinBudget(adapter, sizes, |adapter.stacked|);
  }

  lemma {:induction false} TotalIsBudget(adapter: Adapter, sizes: map<NodePath, nat>, n: nat)
    requires DistinctSlots(adapter) && n <= |adapter.stacked| && sizes.Keys == SlotSet(adapter, n)
    requires forall j :: 0 <= j < n ==>
               adapter.stacked[j].placement in sizes && sizes[adapter.stacked[j].placement] == Cost(adapter.stacked[j])
    ensures Total(sizes) == WindowBudget(adapter, n)
  {
    hide Cost, Total;
    if n == 0 {
      assert sizes == map[];
      NoSizes<NodePath>();
    } else {
      var p := adapter.stacked[n - 1].placement;
      NotInSlotSet(adapter, n - 1);
      TotalWithout(sizes, p);
      TotalIsBudget(adapter, sizes - {p}, n - 1);
    }
  }

  lemma {:induction false} NotInSlotSet(adapter: Adapter, n: nat)
    requires DistinctSlots(adapter) && n < |adapter.stacked|
    ensures adapter.stacked[n].placement !in SlotSet(adapter, n)
  {
    forall m | 0 <= m <= n ensures adapter.stacked[n].placement !in SlotSet(adapter, m) {
      OutsideSlotSet(adapter, m, n);
    }
  }

  lemma {:induction false} OutsideSlotSet(adapter: Adapter, m: nat, n: nat)
    requires DistinctSlots(adapter) && m <= n < |adapter.stacked|
    ensures adapter.stacked[n].placement !in SlotSet(adapter, m)
  {
    if m > 0 {
      OutsideSlotSet(adapter, m - 1, n);
    }
  }

  /** After a clean run with a step in it every window is full. */
  lemma WindowsFull(adapter: Adapter, repack: Repack, first: int, events: seq<Event>, j: nat)
    requires Sound(adapter) && Clean(adapter, repack, first, events) && Ticks(events) >= 1 && j < |adapter.stacked|
    ensures var windows, p := WindowsOf(After(adapter, repack, first, events)), adapter.stacked[j].placement;
            p in windows && |windows[p]| == adapter.stacked[j].span
  {
    hide Run, Given, Clean;
    CleanRunOnTrack(adapter, repack, first, events);
    OneFramePerTick(adapter, repack, first, events, j);
    var hist := HistoriesOf(adapter, repack, first, events)[j];
    assert TracksAt(adapter, WindowsOf(After(adapter, repack, first, events)), j, hist);
    assert IsEntry(adapter.plans, adapter.stacked[j]);
  }

  /** The budget of the windows is exact: a clean run with a step in it, all frames as planned, holds just that much. */
  lemma BudgetIsExact(adapter: Adapter, repack: Repack, first: int, events: seq<Event>)
    requires Sound(adapter) && PlannedSize(adapter, repack, first, events)
    requires Clean(adapter, repack, first, events) && Ticks(events) >= 1
    ensures WindowBytes(WindowsOf(After(adapter, repack, first, events))) == WindowBudget(adapter, |adapter.stacked|)
  {
    hide Run, FramesBytes, PlannedSize, Clean;
    var windows := WindowsOf(After(adapter, repack, first, events));
    var sizes := map p | p in windows :: FramesBytes(windows[p]);
    RunOnlyStacked(adapter, repack, first, events);
    forall j | 0 <= j < |adapter.stacked|
      ensures adapter.stacked[j].placement in sizes && sizes[adapter.stacked[j].placement] == Cost(adapter.stacked[j])
    {
      WindowsFull(adapter, repack, first, events, j);
      WindowSize(adapter, repack, first, events, j);
    }
    SlotSetIs(adapter, |adapter.stacked|);
    assert sizes.Keys == SlotSet(adapter, |adapter.stacked|);
    TotalIsBudget(adapter, sizes, |adapter.stacked|);
  }

  lemma {:induction false} SlotSetIs(adapter: Adapter, n: nat)
    requires n <= |adapter.stacked|
    ensures forall p :: p in SlotSet(adapter, n) <==> exists j :: 0 <= j < n && adapter.stacked[j].placement == p
  {
    if n > 0 {
      SlotSetIs(adapter, n - 1);
    }
  }

  lemma LogBounded(adapter: Adapter, cell: Cell, rows: nat)
    requires RowsFit(adapter, cell) && |OrDefault(cell).actions| <= rows
    ensures LogBytes(OrDefault(cell).actions) <= rows * (F32_BYTES * adapter.inDim)
  {
    var actions := OrDefault(cell).actions;
    LogBytesAre(actions, adapter.inDim);
    MoreRows(|actions|, rows, F32_BYTES * adapter.inDim);
  }

  /** The log takes four bytes for each entry of each of its rows. */
  lemma LogBytesAre(actions: map<int, Row>, width: nat)
    requires forall k :: k in actions ==> |actions[k]| == width
    ensures LogBytes(actions) == |actions| * (4 * width)
  {
    hide Total;
    var sizes := map k | k in actions :: |actions[k]| * F32_BYTES;
    assert sizes.Keys == actions.Keys;
    assert |sizes| == |sizes.Keys| == |actions.Keys| == |actions|;
    forall k | k in sizes ensures sizes[k] == 4 * width {
      assert |actions[k]| == width;
    }
    TotalOfEqual(sizes, 4 * width);
  }

  lemma MoreRows(m: nat, n: nat, size: nat)
    requires m <= n
    ensures m * size <= n * size
  {
  }

  /** An adapter with no action-source part records nothing. */
  lemma {:induction false} NothingRecorded(adapter: Adapter, repack: Repack, first: int, events: seq<Event>)
    requires !adapter.ReadsPrevious()
    ensures OrDefault(After(adapter, repack, first, events)).actions == map[]
    decreases |events|
  {
    hide AssembleAfterRead, Observe, ChunkStart;
    if events != [] {
      var before := events[..|events| - 1];
      NothingRecorded(adapter, repack, first, before);
      var cell := After(adapter, repack, first, before);
      match events[|events| - 1]
      case Tick(assemble, raw) =>
        PipelineKeepsLog(adapter, repack, Advance(cell, first + Ticks(before)).0, raw, None);
      case Chunk(rows) => RecordsNothing(adapter, cell, rows, ChunkStart(cell));
    }
  }

  lemma {:induction false} RecordsNothing(adapter: Adapter, cell: Cell, rows: seq<Row>, start: int)
    requires !adapter.ReadsPrevious()
    ensures RecordFrom(adapter, cell, rows, start) == (cell, Ok(()))
    decreases |rows|
  {
    if rows != [] {
      RecordsNothing(adapter, cell, rows[1..], start + 1);
    }
  }

  // ----- Budgets

  /** A run the budget is made for: frames of the planned size, and a log that keeps to its protocol. */
  ghost predicate Budgeted(adapter: Adapter, repack: Repack, first: int, events: seq<Event>, lead: nat, h: nat)
    requires Sound(adapter)
  {
    && PlannedSize(adapter, repack, first, events)
    && (adapter.ReadsPrevious() ==>
          Clean(adapter, repack, first, events) && KeepsUp(events) && Paced(events, lead, h))
  }

  ghost function EpisodeBudget(adapter: Adapter, lead: nat, h: nat): nat {
    WindowBudget(adapter, |adapter.stacked|) + (lead + h + 1) * (F32_BYTES * adapter.inDim)
  }

  /** One episode never outgrows its windows' budget plus lead + h + 1 action rows. */
  lemma EpisodeWithinBudget(adapter: Adapter, repack: Repack, first: int, events: seq<Event>, lead: nat, h: nat)
    requires Sound(adapter) && Budgeted(adapter, repack, first, events, lead, h)
    ensures EpisodeBytes(OrDefault(After(adapter, repack, first, events))) <= EpisodeBudget(adapter, lead, h)
  {
    hide Run, Clean, PlannedSize, KeepsUp, Paced, Sound, WindowBytes, LogBytes, RowsFit, WindowBudget;
    WindowsBounded(adapter, repack, first, events);
    RunFits(adapter, repack, first, events);
    if adapter.ReadsPrevious() {
      ActionRowsBounded(adapter, repack, first, events, lead, h);
    } else {
      NothingRecorded(adapter, repack, first, events);
    }
    LogBounded(adapter, After(adapter, repack, first, events), lead + h + 1);
  }

  /** What an episode's life so far must be: a budgeted run, or one about to take its next step. */
  ghost predicate LivesWithin(adapter: Adapter, repack: Repack, life: seq<Op>, id: string, first: int, events: seq<Event>, lead: nat, h: nat)
    requires Sound(adapter)
  {
    && Budgeted(adapter, repack, first, events, lead, h)
    && (life == Calls(id, first, events) || life == Calls(id, first, events) + [AdvanceOp(id, first + Ticks(events))])
  }

  /**
   * At every moment of every interleaving of such lives, evictions and clears
   * included, the buffers hold at most one episode budget for each live episode.
   */
  lemma StateWithinBudget(
      adapter: Adapter, repack: Repack, ops: seq<Op>, runs: map<string, (int, seq<Event>)>, lead: nat, h: nat)
    requires Sound(adapter)
    requires forall id :: id in Interleaving.Held(adapter, repack, ops) ==>
               id in runs && LivesWithin(adapter, repack, Life(ops, id), id, runs[id].0, runs[id].1, lead, h)
    ensures var inner := Interleaving.Held(adapter, repack, ops);
            StateBytes(inner) <= |inner| * EpisodeBudget(adapter, lead, h)
  {
    hide Interleaving.Held, LivesWithin, EpisodeBytes, EpisodeBudget, Sound, Life;
    var inner := Interleaving.Held(adapter, repack, ops);
    var sizes := map id | id in inner :: EpisodeBytes(inner[id]);
    forall id | id in sizes ensures sizes[id] <= EpisodeBudget(adapter, lead, h) {
      LifeWithinBudget(adapter, repack, ops, id, runs[id].0, runs[id].1, lead, h);
    }
    assert sizes.Keys == inner.Keys;
    assert |sizes| == |sizes.Keys| == |inner.Keys| == |inner|;
    TotalAtMost(sizes, EpisodeBudget(adapter, lead, h));
  }

  lemma LifeWithinBudget(
      adapter: Adapter, repack: Repack, ops: seq<Op>, id: string, first: int, events: seq<Event>, lead: nat, h: nat)
    requires Sound(adapter) && LivesWithin(adapter, repack, Life(ops, id), id, first, events, lead, h)
    ensures EpisodeBytes(OrDefault(Get(Interleaving.Held(adapter, repack, ops), id))) <= EpisodeBudget(adapter, lead, h)
  {
    hide Interleaving.Held, Life, Calls, Budgeted, EpisodeBudget, WindowBytes, LogBytes, Run, Sound;
    LifeDecides(adapter, repack, ops, id);
    CallsAreTheRun(adapter, repack, id, first, events);
    EpisodeWithinBudget(adapter, repack, first, events, lead, h);
    if Life(ops, id) != Calls(id, first, events) {
      AboutToStep(adapter, repack, id, first, events);
    }
  }
}
