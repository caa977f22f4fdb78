/**
 * One episode's state and what each engine call does to it, as values
 * (crates/rlmesh-adapters/src/stateful.rs).  The class in FrameBuffers.dfy is
 * proved against these functions.
 */
module Episodes {
  import opened Wrappers
  import opened Sets
  import opened Tensors
  import opened Values
  import opened Paths
  import opened Plans
  import opened Windows

  datatype Episode = Episode(
    windows: map<NodePath, seq<Tensor>>,
    lastStep: Option<int>,
    actions: map<int, Row>,
    firstStep: Option<int>)

  const FRESH := Episode(map[], None, map[], None)

  /** An episode's slot in the buffers; None when they hold nothing for it. */
  type Cell = Option<Episode>

  function OrDefault(cell: Cell): Episode {
    if cell.Some? then cell.value else FRESH
  }

  /** The model-input tree, by the placement of each leaf. */
  type Payload = map<NodePath, Value>

  /** The observation half of an encoding transform, None where it fails. */
  type Repack = Payload -> Option<Payload>

  /** A transform that leaves every stacked input as the plan produced it. */
  ghost predicate KeepsStacked(adapter: Adapter, repack: Repack) {
    forall payload: Payload, j :: 0 <= j < |adapter.stacked| && repack(payload).Some? ==>
      var p := adapter.stacked[j].placement;
      p in payload ==> p in repack(payload).value && repack(payload).value[p] == payload[p]
  }

  /** `advance_step`: a held episode moves by exactly one. */
  function Advance(cell: Cell, step: int): (Cell, Result<(), ApplyError>) {
    var episode := OrDefault(cell);
    if episode.lastStep.Some? && step != episode.lastStep.value + 1
    then (Some(episode), Err(NotConsecutive(episode.lastStep.value + 1)))
    else (Some(episode.(lastStep := Some(step))), Ok(()))
  }

  /** `next_step`: one past the last, or 0. */
  function NextStep(cell: Cell): int {
    if cell.Some? && cell.value.lastStep.Some? then cell.value.lastStep.value + 1 else 0
  }

  /** The last of a non-empty set of recorded steps. */
  ghost function LastOf(steps: set<int>): (last: int)
    requires steps != {}
    ensures last in steps && forall k :: k in steps ==> k <= last
  {
    var k := Pick(steps);
    if steps == {k} then k
    else
      var rest := LastOf(steps - {k});
      assert forall l :: l in steps ==> l == k || l in steps - {k};
      if rest < k then k else rest
  }

  /** `chunk_start`: one past the last recorded action, or the observed step. */
  ghost function ChunkStart(cell: Cell): int {
    if cell.None? then 0
    else
      var observed := if cell.value.lastStep.Some? then cell.value.lastStep.value else 0;
      if cell.value.actions == map[] || LastOf(cell.value.actions.Keys) + 1 < observed then observed
      else LastOf(cell.value.actions.Keys) + 1
  }

  function RetainFrom(actions: map<int, Row>, wanted: int): map<int, Row> {
    map k | k in actions && wanted <= k :: actions[k]
  }

  /** `previous_action`: nothing at the first assembled step, row `step - 1` after it. */
  function PreviousAction(cell: Cell, step: int): (Cell, Result<Option<Row>, ApplyError>) {
    var episode := OrDefault(cell);
    var first := if episode.firstStep.Some? then episode.firstStep.value else step;
    var begun := episode.(firstStep := Some(first));
    if first == step then (Some(begun), Ok(None))
    else
      var kept := RetainFrom(episode.actions, step - 1);
      (Some(begun.(actions := kept)),
       if step - 1 in kept then Ok(Some(kept[step - 1])) else Err(NoActionRecorded(step - 1)))
  }

  /** The read an assembled observation makes: only an action-source adapter makes one. */
  function ReadPrevious(adapter: Adapter, cell: Cell, step: int): (Cell, Result<Option<Row>, ApplyError>) {
    if adapter.ReadsPrevious() then PreviousAction(cell, step) else (cell, Ok(None))
  }

  /** `record_action`: keep the row under its step, if the adapter ever reads one. */
  function Record(adapter: Adapter, cell: Cell, row: Row, step: int): (Cell, Result<(), ApplyError>) {
    if !adapter.ReadsPrevious() then (cell, Ok(()))
    else if |row| != adapter.inDim then (cell, Err(RowWidth))
    else (Some(OrDefault(cell).(actions := OrDefault(cell).actions[step := row])), Ok(()))
  }

  /** Record the frames of a chunk under consecutive steps, stopping at the first refusal. */
  function RecordFrom(adapter: Adapter, cell: Cell, rows: seq<Row>, start: int): (Cell, Result<(), ApplyError>)
    decreases |rows|
  {
    if rows == [] then (cell, Ok(()))
    else
      var (next, r) := Record(adapter, cell, rows[0], start);
      if r.Err? then (next, r) else RecordFrom(adapter, next, rows[1..], start + 1)
  }

  /** Run one plan over an observation; what it produces lands at its placement. */
  function Place(payload: Payload, plan: ObsPlan, raw: RawObs, previous: Option<Row>): Result<Payload, ApplyError> {
    match plan
    case Image(image) =>
      (match image.apply(raw)
       case None => Err(PlanFailed)
       case Some(v) => Ok(payload[image.placement := v]))
    case State(at, _, state) =>
      (match state(raw, previous)
       case None => Err(PlanFailed)
       case Some(v) => Ok(payload[at := v]))
    case Other(at, other) =>
      (match other(raw)
       case None => Err(PlanFailed)
       case Some(None) => Ok(payload)
       case Some(Some(v)) => Ok(payload[at := v]))
  }

  /** Run the first `n` plans over an observation. */
  function Transform(plans: seq<ObsPlan>, n: nat, raw: RawObs, previous: Option<Row>): Result<Payload, ApplyError>
    requires n <= |plans|
  {
    if n == 0 then Ok(map[])
    else
      match Transform(plans, n - 1, raw, previous)
      case Err(e) => Err(e)
      case Ok(payload) => Place(payload, plans[n - 1], raw, previous)
  }

  function WindowAt(windows: map<NodePath, seq<Tensor>>, p: NodePath): seq<Tensor> {
    if p in windows then windows[p] else []
  }

  /** Push a frame onto a placement's window; a refused pad leaves the window open but empty. */
  function PushInto(adapter: Adapter, windows: map<NodePath, seq<Tensor>>, entry: StackedPlacement, frame: Tensor)
    : (map<NodePath, seq<Tensor>>, Result<(), ApplyError>)
  {
    var held := WindowAt(windows, entry.placement);
    match adapter.ImageOf(entry)
    case None => (windows[entry.placement := held], Err(NotAnImage))
    case Some(image) =>
      match Pushed(held, frame, entry.span, image.(stackPad := entry.stackPad))
      case Ok(frames) => (windows[entry.placement := frames], Ok(()))
      case Err(e) => (windows[entry.placement := held], Err(e))
  }

  /** What stacking one placement comes to: the walk stops, or goes on with a new slot. */
  datatype Stacking =
    | Stop(windows: map<NodePath, seq<Tensor>>, error: ApplyError)
    | Go(windows: map<NodePath, seq<Tensor>>, payload: Payload)

  /** Push one placement's frame and put its stack in the frame's place. */
  function StackSlot(adapter: Adapter, windows: map<NodePath, seq<Tensor>>, payload: Payload, entry: StackedPlacement): Stacking {
    if entry.placement !in payload then Stop(windows, MissingSlot)
    else if !payload[entry.placement].Dense? then Stop(windows, NotATensor)
    else
      var (pushed, r) := PushInto(adapter, windows, entry, payload[entry.placement].tensor);
      if r.Err? then Stop(pushed, r.error)
      else
        match Gathered(pushed[entry.placement], entry)
        case Err(e) => Stop(pushed, e)
        case Ok(stack) => Go(pushed, payload[entry.placement := Dense(stack)])
  }

  /** Stack the placements from the `j`-th on, in place. */
  function StackFrom(adapter: Adapter, windows: map<NodePath, seq<Tensor>>, payload: Payload, j: nat)
    : (map<NodePath, seq<Tensor>>, Result<Payload, ApplyError>)
    requires j <= |adapter.stacked|
    decreases |adapter.stacked| - j
  {
    if j == |adapter.stacked| then (windows, Ok(payload))
    else
      match StackSlot(adapter, windows, payload, adapter.stacked[j])
      case Stop(stopped, e) => (stopped, Err(e))
      case Go(pushed, next) => StackFrom(adapter, pushed, next, j + 1)
  }

  /** The payload an assembled step hands to stacking: its plans' results, after the encoding transform. */
  function Repacked(adapter: Adapter, repack: Repack, raw: RawObs, previous: Option<Row>): Option<Payload> {
    match Transform(adapter.plans, |adapter.plans|, raw, previous)
    case Err(_) => None
    case Ok(transformed) => repack(transformed)
  }

  /** What the engine does once it knows the previous action. */
  function AssembleAfterRead(adapter: Adapter, repack: Repack, cell: Cell, raw: RawObs, previous: Option<Row>)
    : (Cell, Result<Payload, ApplyError>)
  {
    match Transform(adapter.plans, |adapter.plans|, raw, previous)
    case Err(e) => (cell, Err(e))
    case Ok(transformed) =>
      match repack(transformed)
      case None => (cell, Err(PlanFailed))
      case Some(payload) =>
        if adapter.stacked == [] then (cell, Ok(payload))
        else
          var (windows, r) := StackFrom(adapter, OrDefault(cell).windows, payload, 0);
          (Some(OrDefault(cell).(windows := windows)), r)
  }

  /** `assemble_obs`. */
  function Assemble(adapter: Adapter, repack: Repack, cell: Cell, raw: RawObs, step: int)
    : (Cell, Result<Payload, ApplyError>)
  {
    var (read, previous) := ReadPrevious(adapter, cell, step);
    if previous.Err? then (read, Err(previous.error))
    else AssembleAfterRead(adapter, repack, read, raw, previous.value)
  }

  /** The processed frame of one stacked input. */
  function FrameOf(image: ImagePlan, raw: RawObs): Result<Tensor, ApplyError> {
    match image.apply(raw)
    case None => Err(PlanFailed)
    case Some(v) => if v.Dense? then Ok(v.tensor) else Err(NotATensor)
  }

  /** `history_frames`: the processed frames of the first `n` stacked placements. */
  function HistoryFrames(adapter: Adapter, raw: RawObs, n: nat): (r: Result<seq<Tensor>, ApplyError>)
    requires n <= |adapter.stacked|
    ensures r.Ok? ==> |r.value| == n
  {
    if n == 0 then Ok([])
    else
      var before := HistoryFrames(adapter, raw, n - 1);
      if before.Err? then before
      else
        match adapter.ImageOf(adapter.stacked[n - 1])
        case None => Err(NotAnImage)
        case Some(image) =>
          match FrameOf(image, raw)
          case Err(e) => Err(e)
          case Ok(frame) => Ok(before.value + [frame])
  }

  function PushFrom(adapter: Adapter, windows: map<NodePath, seq<Tensor>>, frames: seq<Tensor>, j: nat)
    : (map<NodePath, seq<Tensor>>, Result<(), ApplyError>)
    requires j <= |adapter.stacked| == |frames|
    decreases |adapter.stacked| - j
  {
    if j == |adapter.stacked| then (windows, Ok(()))
    else
      var (pushed, r) := PushInto(adapter, windows, adapter.stacked[j], frames[j]);
      if r.Err? then (pushed, r) else PushFrom(adapter, pushed, frames, j + 1)
  }

  /** `observe_obs`: every window sees the step's frame, nothing is assembled. */
  function Observe(adapter: Adapter, cell: Cell, raw: RawObs): (Cell, Result<(), ApplyError>) {
    if adapter.stacked == [] then (cell, Ok(()))
    else
      match HistoryFrames(adapter, raw, |adapter.stacked|)
      case Err(e) => (cell, Err(e))
      case Ok(frames) =>
        var (windows, r) := PushFrom(adapter, OrDefault(cell).windows, frames, 0);
        (Some(OrDefault(cell).(windows := windows)), r)
  }
}
