/**
 * The frames of a batched prediction
 * (crates/rlmesh/src/model/engine.rs, `finish_route_frames_inner`;
 * crates/rlmesh-adapters/src/stateful.rs, `apply_actions`): every lane's chunk is
 * converted and recorded whole, and replayed to the shortest lane.
 */
module RouteFrames {
  import opened Wrappers
  import opened Values
  import opened Plans
  import opened Episodes
  import opened FrameBuffers
  import opened Runs
  import opened ChunkProtocol
  import opened ActionRows
  import opened Execution

  /** A converted action: the row the log keeps, and the value the env executes. */
  datatype Applied = Applied(row: Row, value: Value)

  /** Host repack, native conversion and encoding of one model action, None where one of them fails. */
  type Convert = Value -> Option<Applied>

  /** One lane of a batch: its episode and the actions the model returned for it. */
  datatype Lane = Lane(id: string, raws: seq<Value>)

  datatype RouteError = ApplyFailed(cause: ApplyError) | EmptyChunk

  /** The batch's first actions, one per lane, and the later ones, step by step and lane by lane. */
  datatype Frames = Frames(actions: seq<Value>, replay: seq<seq<Value>>)

  // ----- One lane

  /** Convert and record the actions of one lane under consecutive steps, stopping at the first failure. */
  function ApplyFrom(adapter: Adapter, convert: Convert, cell: Cell, raws: seq<Value>, start: int)
    : (Cell, Result<seq<Value>, ApplyError>)
    decreases |raws|
  {
    if raws == [] then (cell, Ok([]))
    else
      match convert(raws[0])
      case None => (cell, Err(PlanFailed))
      case Some(applied) =>
        var (next, r) := Record(adapter, cell, applied.row, start);
        if r.Err? then (next, Err(r.error))
        else
          var (last, rest) := ApplyFrom(adapter, convert, next, raws[1..], start + 1);
          (last, if rest.Ok? then Ok([applied.value] + rest.value) else rest)
  }

  /** The actions convert, and to these rows and values. */
  ghost predicate ConvertsTo(convert: Convert, raws: seq<Value>, rows: seq<Row>, values: seq<Value>) {
    && |raws| == |rows| == |values|
    && forall k :: 0 <= k < |raws| ==> convert(raws[k]) == Some(Applied(rows[k], values[k]))
  }

  /** Where all actions convert, a lane records their rows as a chunk and returns their values. */
  lemma {:induction false} AppliesAsAChunk(
      adapter: Adapter, convert: Convert, cell: Cell, raws: seq<Value>, rows: seq<Row>, values: seq<Value>, start: int)
    requires ConvertsTo(convert, raws, rows, values)
    ensures ApplyFrom(adapter, convert, cell, raws, start).0 == RecordFrom(adapter, cell, rows, start).0
    ensures var r, recorded := ApplyFrom(adapter, convert, cell, raws, start).1, RecordFrom(adapter, cell, rows, start).1;
            r == if recorded.Ok? then Ok(values) else Err(recorded.error)
    decreases |raws|
  {
    if raws != [] {
      AppliesAsAChunk(adapter, convert, Record(adapter, cell, rows[0], start).0, raws[1..], rows[1..], values[1..], start + 1);
      assert values == [values[0]] + values[1..];
    }
  }

  /** Wherever a lane fails, the frames before the failing one stay recorded, under their steps. */
  lemma {:induction false} FailedLaneKeepsItsPrefix(
      adapter: Adapter, convert: Convert, cell: Cell, raws: seq<Value>, rows: seq<Row>, values: seq<Value>, start: int)
    requires |rows| < |raws| && ConvertsTo(convert, raws[..|rows|], rows, values)
    requires RecordFrom(adapter, cell, rows, start).1.Ok? && convert(raws[|rows|]).None?
    ensures ApplyFrom(adapter, convert, cell, raws, start) == (RecordFrom(adapter, cell, rows, start).0, Err(PlanFailed))
    decreases |rows|
  {
    if rows != [] {
      var next := Record(adapter, cell, rows[0], start).0;
      assert raws[..|rows|][0] == raws[0];
      assert raws[1..][..|rows[1..]|] == raws[..|rows|][1..];
      FailedLaneKeepsItsPrefix(adapter, convert, next, raws[1..], rows[1..], values[1..], start + 1);
    }
  }

  method ApplyLane(adapter: Adapter, convert: Convert, lane: Lane, buffers: FrameBuffers) returns (r: Result<seq<Value>, ApplyError>)
    modifies buffers
    ensures var before := old(Get(buffers.inner, lane.id));
            var (cell, result) := ApplyFrom(adapter, convert, before, lane.raws, ChunkStart(before));
            buffers.inner == Put(old(buffers.inner), lane.id, cell) && r == result
  {
    hide ChunkStart, Record, ApplyFrom, Continued;
    ghost var before := Get(buffers.inner, lane.id);
    var start := buffers.ChunkStep(lane.id);
    Starts(adapter, convert, before, lane.raws, start);
    var values: seq<Value> := [];
    for k := 0 to |lane.raws|
      invariant buffers.inner == Put(old(buffers.inner), lane.id, Get(buffers.inner, lane.id))
      invariant Continued(adapter, convert, before, Get(buffers.inner, lane.id), lane.raws, start, k, values)
    {
      OneMore(adapter, convert, before, Get(buffers.inner, lane.id), lane.raws, start, k, values);
      var applied := convert(lane.raws[k]);
      if applied.None? {
        return Err(PlanFailed);
      }
      ghost var cell := Get(buffers.inner, lane.id);
      var recorded := RecordAction(adapter, applied.value.row, lane.id, start + k, buffers);
      assert Get(buffers.inner, lane.id) == Record(adapter, cell, applied.value.row, start + k).0;
      if recorded.Err? {
        return Err(recorded.error);
      }
      values := values + [applied.value.value];
    }
    Ends(adapter, convert, before, Get(buffers.inner, lane.id), lane.raws, start, values);
    return Ok(values);
  }

  /** The walk of a lane, cut after `k` of its actions. */
  ghost predicate Continued(
      adapter: Adapter, convert: Convert, before: Cell, cell: Cell, raws: seq<Value>, start: int, k: nat, values: seq<Value>)
    requires k <= |raws|
  {
    var whole, rest := ApplyFrom(adapter, convert, before, raws, start), ApplyFrom(adapter, convert, cell, raws[k..], start + k);
    && whole.0 == rest.0
    && whole.1 == if rest.1.Ok? then Ok(values + rest.1.value) else rest.1
  }

  lemma Starts(adapter: Adapter, convert: Convert, before: Cell, raws: seq<Value>, start: int)
    ensures Continued(adapter, convert, before, before, raws, start, 0, [])
  {
    hide ApplyFrom;
    assert raws[0..] == raws;
    var none: seq<Value> := [];
    var r := ApplyFrom(adapter, convert, before, raws, start).1;
    assert r.Ok? ==> none + r.value == r.value;
  }

  lemma Ends(
      adapter: Adapter, convert: Convert, before: Cell, cell: Cell, raws: seq<Value>, start: int, values: seq<Value>)
    requires Continued(adapter, convert, before, cell, raws, start, |raws|, values)
    ensures ApplyFrom(adapter, convert, before, raws, start) == (cell, Ok(values))
  {
    assert raws[|raws|..] == [];
    assert ApplyFrom(adapter, convert, cell, raws[|raws|..], start + |raws|) == (cell, Ok([]));
    assert values + [] == values;
  }

  /** The next action stops the walk, or carries it on. */
  lemma OneMore(
      adapter: Adapter, convert: Convert, before: Cell, cell: Cell, raws: seq<Value>, start: int, k: nat, values: seq<Value>)
    requires k < |raws| && Continued(adapter, convert, before, cell, raws, start, k, values)
    ensures match convert(raws[k])
            case None => ApplyFrom(adapter, convert, before, raws, start) == (cell, Err(PlanFailed))
            case Some(applied) =>
              var (next, r) := Record(adapter, cell, applied.row, start + k);
              if r.Err? then ApplyFrom(adapter, convert, before, raws, start) == (next, Err(r.error))
              else Continued(adapter, convert, before, next, raws, start, k + 1, values + [applied.value])
  {
    hide Record;
    assert raws[k..][1..] == raws[k + 1..] && raws[k..][0] == raws[k];
    if convert(raws[k]).Some? {
      var applied := convert(raws[k]).value;
      var next := Record(adapter, cell, applied.row, start + k).0;
      var rest := ApplyFrom(adapter, convert, next, raws[k + 1..], start + k + 1).1;
      assert rest.Ok? ==> values + ([applied.value] + rest.value) == values + [applied.value] + rest.value;
    }
  }

  // ----- The batch

  /** The applied lanes, or the first failure, and the buffers it leaves. */
  ghost function ApplyLanes(adapter: Adapter, convert: Convert, inner: Buffers, lanes: seq<Lane>, n: nat)
    : (Buffers, Result<seq<seq<Value>>, RouteError>)
    requires n <= |lanes|
  {
    if n == 0 then (inner, Ok([]))
    else
      var (before, applied) := ApplyLanes(adapter, convert, inner, lanes, n - 1);
      if applied.Err? then (before, applied)
      else
        var cell := Get(before, lanes[n - 1].id);
        var (next, r) := ApplyFrom(adapter, convert, cell, lanes[n - 1].raws, ChunkStart(cell));
        (Put(before, lanes[n - 1].id, next),
         if r.Err? then Err(ApplyFailed(r.error))
         else if r.value == [] then Err(EmptyChunk)
         else Ok(applied.value + [r.value]))
  }

  /** The length of the shortest list; 0 for none. */
  function Shortest<T>(lists: seq<seq<T>>): nat {
    if lists == [] then 0
    else
      var rest := Shortest(lists[..|lists| - 1]);
      var last := |lists[|lists| - 1]|;
      if |lists| == 1 || last < rest then last else rest
  }

  lemma {:induction false} ShortestIsLeast<T>(lists: seq<seq<T>>)
    ensures forall i :: 0 <= i < |lists| ==> Shortest(lists) <= |lists[i]|
    ensures lists != [] ==> exists i :: 0 <= i < |lists| && Shortest(lists) == |lists[i]|
  {
    if lists != [] {
      ShortestIsLeast(lists[..|lists| - 1]);
      assert Shortest(lists) == |lists[|lists| - 1]| || Shortest(lists) == Shortest(lists[..|lists| - 1]);
    }
  }

  /** What lane `i` executes of a batch: its first action, then its column of the replay. */
  ghost function Executed(frames: Frames, i: nat): seq<Value>
    requires i < |frames.actions| && forall s :: 0 <= s < |frames.replay| ==> i < |frames.replay[s]|
  {
    [frames.actions[i]] + seq(|frames.replay|, s requires 0 <= s < |frames.replay| => frames.replay[s][i])
  }

  /** The frames hold, for every lane, its values up to the shortest lane's length. */
  ghost predicate IsBatch(frames: Frames, applied: seq<seq<Value>>) {
    && |frames.actions| == |applied|
    && |frames.replay| == (if applied == [] then 0 else Shortest(applied) - 1)
    && (forall s :: 0 <= s < |frames.replay| ==> |frames.replay[s]| == |applied|)
    && forall i :: 0 <= i < |applied| ==> Shortest(applied) <= |applied[i]| && Executed(frames, i) == applied[i][..Shortest(applied)]
  }

  /** The length the replay runs to: the shortest lane's, less the frame peeled off. */
  method ReplayLength(applied: seq<seq<Value>>) returns (n: nat)
    requires forall i :: 0 <= i < |applied| ==> applied[i] != []
    ensures n == if applied == [] then 0 else Shortest(applied) - 1
  {
    n := 0;
    for i := 0 to |applied|
      invariant n == if i == 0 then 0 else Shortest(applied[..i]) - 1
    {
      assert applied[..i + 1][..i] == applied[..i];
      if i == 0 || |applied[i]| - 1 < n {
        n := |applied[i]| - 1;
      }
    }
    assert applied[..|applied|] == applied;
  }

  /** Peel off frame 0 of every lane and transpose the rest, up to the shortest lane. */
  method Transpose(applied: seq<seq<Value>>) returns (frames: Frames)
    requires forall i :: 0 <= i < |applied| ==> applied[i] != []
    ensures IsBatch(frames, applied)
  {
    ShortestIsLeast(applied);
    var actions := seq(|applied|, i requires 0 <= i < |applied| => applied[i][0]);
    var length := ReplayLength(applied);
    var replay: seq<seq<Value>> := [];
    for step := 0 to length
      invariant |replay| == step
      invariant forall s :: 0 <= s < step ==>
                  |replay[s]| == |applied| && forall i :: 0 <= i < |applied| ==> replay[s][i] == applied[i][s + 1]
    {
      replay := replay + [seq(|applied|, i requires 0 <= i < |applied| => applied[i][step + 1])];
    }
    frames := Frames(actions, replay);
    forall i | 0 <= i < |applied| ensures Executed(frames, i) == applied[i][..Shortest(applied)] {
      assert applied[i][..Shortest(applied)] == [applied[i][0]] + applied[i][1..Shortest(applied)];
    }
  }

  /** Record every lane's chunk, then hand out what the batch executes. */
  method FinishRouteFrames(adapter: Adapter, convert: Convert, lanes: seq<Lane>, buffers: FrameBuffers)
    returns (r: Result<Frames, RouteError>)
    modifies buffers
    ensures var (inner, applied) := ApplyLanes(adapter, convert, old(buffers.inner), lanes, |lanes|);
            && buffers.inner == inner
            && (r.Ok? <==> applied.Ok?)
            && (r.Err? ==> r.error == applied.error)
            && (r.Ok? ==> IsBatch(r.value, applied.value))
  {
    hide ApplyFrom, ChunkStart, IsBatch;
    var applied: seq<seq<Value>> := [];
    for n := 0 to |lanes|
      invariant ApplyLanes(adapter, convert, old(buffers.inner), lanes, n) == (buffers.inner, Ok(applied))
      invariant forall i :: 0 <= i < |applied| ==> applied[i] != []
    {
      var values := ApplyLane(adapter, convert, lanes[n], buffers);
      if values.Err? {
        LanesStop(adapter, convert, old(buffers.inner), lanes, n + 1);
        return Err(ApplyFailed(values.error));
      }
      if values.value == [] {
        LanesStop(adapter, convert, old(buffers.inner), lanes, n + 1);
        return Err(EmptyChunk);
      }
      applied := applied + [values.value];
    }
    var frames := Transpose(applied);
    return Ok(frames);
  }

  /** A failed lane ends the batch there. */
  lemma {:induction false} LanesStop(adapter: Adapter, convert: Convert, inner: Buffers, lanes: seq<Lane>, n: nat)
    requires n <= |lanes| && ApplyLanes(adapter, convert, inner, lanes, n).1.Err?
    ensures ApplyLanes(adapter, convert, inner, lanes, |lanes|) == ApplyLanes(adapter, convert, inner, lanes, n)
    decreases |lanes| - n
  {
    hide ApplyFrom, ChunkStart;
    if n < |lanes| {
      LanesStop(adapter, convert, inner, lanes, n + 1);
    }
  }

  // ----- What a batch records

  /** The rows a lane applies: those of its actions before the first that does not convert or is refused. */
  function AppliedRows(adapter: Adapter, convert: Convert, raws: seq<Value>): (rows: seq<Row>)
    ensures |rows| <= |raws|
  {
    if raws == [] then []
    else
      match convert(raws[0])
      case None => []
      case Some(applied) =>
        if adapter.ReadsPrevious() && |applied.row| != adapter.inDim then []
        else [applied.row] + AppliedRows(adapter, convert, raws[1..])
  }

  /** The values the actions convert to, one for one. */
  ghost predicate AreValuesOf(convert: Convert, raws: seq<Value>, values: seq<Value>) {
    && |values| == |raws|
    && forall k :: 0 <= k < |raws| ==> convert(raws[k]).Some? && values[k] == convert(raws[k]).value.value
  }

  /** The first action a lane does not apply: it does not convert, or its row has the wrong width for a log that is read. */
  ghost predicate StopsAt(adapter: Adapter, convert: Convert, raws: seq<Value>, k: nat, e: ApplyError) {
    && k < |raws|
    && match convert(raws[k])
       case None => e == PlanFailed
       case Some(applied) => e == RowWidth && adapter.ReadsPrevious() && |applied.row| != adapter.inDim
  }

  /** Whether it succeeds or fails, a lane records as a chunk the rows it applied. */
  lemma {:induction false} RecordsWhatItApplied(adapter: Adapter, convert: Convert, cell: Cell, raws: seq<Value>, start: int)
    ensures var rows := AppliedRows(adapter, convert, raws);
            var (after, r) := ApplyFrom(adapter, convert, cell, raws, start);
            && RecordFrom(adapter, cell, rows, start).1.Ok?
            && after == RecordFrom(adapter, cell, rows, start).0
            && (r.Ok? <==> |rows| == |raws|)
            && (r.Ok? ==> AreValuesOf(convert, raws, r.value))
            && (r.Err? ==> StopsAt(adapter, convert, raws, |rows|, r.error))
    decreases |raws|
  {
    if raws != [] && convert(raws[0]).Some? {
      var row := convert(raws[0]).value.row;
      RecordsWhatItApplied(adapter, convert, Record(adapter, cell, row, start).0, raws[1..], start + 1);
      assert raws == [raws[0]] + raws[1..];
      assert ([row] + AppliedRows(adapter, convert, raws[1..]))[1..] == AppliedRows(adapter, convert, raws[1..]);
    }
  }

  /** The lane has actions, and applies them all. */
  ghost predicate Complete(adapter: Adapter, convert: Convert, lane: Lane) {
    lane.raws != [] && |AppliedRows(adapter, convert, lane.raws)| == |lane.raws|
  }

  ghost predicate CompleteUpTo(adapter: Adapter, convert: Convert, lanes: seq<Lane>, n: nat)
    requires n <= |lanes|
  {
    forall k :: 0 <= k < n ==> Complete(adapter, convert, lanes[k])
  }

  /** A batch succeeds exactly when every lane is complete, and then has every lane's values. */
  lemma {:induction false} SucceedsIff(adapter: Adapter, convert: Convert, inner: Buffers, lanes: seq<Lane>, n: nat)
    requires n <= |lanes|
    ensures var applied := ApplyLanes(adapter, convert, inner, lanes, n).1;
            && (applied.Ok? <==> CompleteUpTo(adapter, convert, lanes, n))
            && (applied.Ok? ==> |applied.value| == n && forall k :: 0 <= k < n ==> AreValuesOf(convert, lanes[k].raws, applied.value[k]))
  {
    hide ApplyFrom, ChunkStart, AppliedRows;
    if n > 0 {
      SucceedsIff(adapter, convert, inner, lanes, n - 1);
      var cell := Get(ApplyLanes(adapter, convert, inner, lanes, n - 1).0, lanes[n - 1].id);
      RecordsWhatItApplied(adapter, convert, cell, lanes[n - 1].raws, ChunkStart(cell));
      var r := ApplyFrom(adapter, convert, cell, lanes[n - 1].raws, ChunkStart(cell)).1;
      assert Complete(adapter, convert, lanes[n - 1]) <==> r.Ok? && r.value != [];
      assert CompleteUpTo(adapter, convert, lanes, n)
        <==> CompleteUpTo(adapter, convert, lanes, n - 1) && Complete(adapter, convert, lanes[n - 1]);
    }
  }

  /** The error names what stops lane `i`: it has no actions, or one it cannot apply. */
  ghost predicate LaneStops(adapter: Adapter, convert: Convert, lane: Lane, error: RouteError) {
    match error
    case EmptyChunk => lane.raws == []
    case ApplyFailed(e) => StopsAt(adapter, convert, lane.raws, |AppliedRows(adapter, convert, lane.raws)|, e)
  }

  /** A failed batch names what stopped its first incomplete lane. */
  lemma {:induction false} BatchErrorHasCause(adapter: Adapter, convert: Convert, inner: Buffers, lanes: seq<Lane>, n: nat)
    requires n <= |lanes| && ApplyLanes(adapter, convert, inner, lanes, n).1.Err?
    ensures exists i :: 0 <= i < n && CompleteUpTo(adapter, convert, lanes, i)
                        && LaneStops(adapter, convert, lanes[i], ApplyLanes(adapter, convert, inner, lanes, n).1.error)
  {
    hide ApplyFrom, ChunkStart, AppliedRows, CompleteUpTo, StopsAt;
    if ApplyLanes(adapter, convert, inner, lanes, n - 1).1.Err? {
      BatchErrorHasCause(adapter, convert, inner, lanes, n - 1);
    } else {
      SucceedsIff(adapter, convert, inner, lanes, n - 1);
      var cell := Get(ApplyLanes(adapter, convert, inner, lanes, n - 1).0, lanes[n - 1].id);
      RecordsWhatItApplied(adapter, convert, cell, lanes[n - 1].raws, ChunkStart(cell));
      var r := ApplyFrom(adapter, convert, cell, lanes[n - 1].raws, ChunkStart(cell)).1;
      assert ApplyLanes(adapter, convert, inner, lanes, n).1.error == if r.Err? then ApplyFailed(r.error) else EmptyChunk;
      assert r.Ok? ==> r.value == [] && lanes[n - 1].raws == [];
      assert LaneStops(adapter, convert, lanes[n - 1], ApplyLanes(adapter, convert, inner, lanes, n).1.error);
    }
  }

  /** The rows lane `i` records in a batch: nothing once an earlier lane has failed. */
  ghost function Recorded(adapter: Adapter, convert: Convert, lanes: seq<Lane>, i: nat): seq<Row>
    requires i < |lanes|
  {
    if CompleteUpTo(adapter, convert, lanes, i) then AppliedRows(adapter, convert, lanes[i].raws) else []
  }

  ghost predicate OwnEpisodes(lanes: seq<Lane>) {
    forall i, j :: 0 <= i < j < |lanes| ==> lanes[i].id != lanes[j].id
  }

  /** A batch, failed or not, records for each lane one chunk of the rows it applied. */
  lemma {:induction false} BatchRecords(
      adapter: Adapter, convert: Convert, inner: Buffers, lanes: seq<Lane>, n: nat, i: nat)
    requires OwnEpisodes(lanes) && n <= |lanes| && i < |lanes|
    ensures var cell := Get(inner, lanes[i].id);
            Get(ApplyLanes(adapter, convert, inner, lanes, n).0, lanes[i].id)
            == if i < n then RecordFrom(adapter, cell, Recorded(adapter, convert, lanes, i), ChunkStart(cell)).0 else cell
    decreases n
  {
    hide ApplyFrom, ChunkStart, AppliedRows, CompleteUpTo;
    if n > 0 {
      BatchRecords(adapter, convert, inner, lanes, n - 1, i);
      BatchRecords(adapter, convert, inner, lanes, n - 1, n - 1);
      SucceedsIff(adapter, convert, inner, lanes, n - 1);
      var cell := Get(inner, lanes[n - 1].id);
      RecordsWhatItApplied(adapter, convert, cell, lanes[n - 1].raws, ChunkStart(cell));
    }
  }

  /** How many actions of each lane a batch hands out to run. */
  ghost function HandedOutOf(adapter: Adapter, convert: Convert, lanes: seq<Lane>): nat {
    if CompleteUpTo(adapter, convert, lanes, |lanes|) then Shortest(RawsOf(lanes)) else 0
  }

  function RawsOf(lanes: seq<Lane>): seq<seq<Value>> {
    seq(|lanes|, i requires 0 <= i < |lanes| => lanes[i].raws)
  }

  lemma SameLengthsSameShortest(a: seq<seq<Value>>, b: seq<seq<Value>>)
    requires |a| == |b| && forall i :: 0 <= i < |a| ==> |a[i]| == |b[i]|
    ensures Shortest(a) == Shortest(b)
  {
    ShortestIsLeast(a);
    ShortestIsLeast(b);
  }

  /** The frames of a batch that succeeds are, for every lane, its first so many values. */
  lemma BatchHandsOut(
      adapter: Adapter, convert: Convert, inner: Buffers, lanes: seq<Lane>, frames: Frames, i: nat)
    requires i < |lanes| && ApplyLanes(adapter, convert, inner, lanes, |lanes|).1.Ok?
    requires IsBatch(frames, ApplyLanes(adapter, convert, inner, lanes, |lanes|).1.value)
    ensures var applied, handed := ApplyLanes(adapter, convert, inner, lanes, |lanes|).1.value, HandedOutOf(adapter, convert, lanes);
            && i < |applied| && AreValuesOf(convert, lanes[i].raws, applied[i]) && handed <= |applied[i]|
            && Executed(frames, i) == applied[i][..handed]
  {
    hide ApplyLanes, AppliedRows, CompleteUpTo, Shortest;
    SucceedsIff(adapter, convert, inner, lanes, |lanes|);
    var applied := ApplyLanes(adapter, convert, inner, lanes, |lanes|).1.value;
    forall k | 0 <= k < |lanes| ensures |applied[k]| == |RawsOf(lanes)[k]| {
      assert AreValuesOf(convert, lanes[k].raws, applied[k]);
    }
    SameLengthsSameShortest(applied, RawsOf(lanes));
  }

  lemma HandedAtMostEachRecorded(adapter: Adapter, convert: Convert, lanes: seq<Lane>, i: nat)
    requires i < |lanes|
    ensures HandedOutOf(adapter, convert, lanes) <= |Recorded(adapter, convert, lanes, i)|
  {
    hide AppliedRows, Shortest;
    ShortestIsLeast(RawsOf(lanes));
    if CompleteUpTo(adapter, convert, lanes, |lanes|) {
      assert Complete(adapter, convert, lanes[i]) && CompleteUpTo(adapter, convert, lanes, i);
      assert RawsOf(lanes)[i] == lanes[i].raws;
    }
  }

  ghost predicate EquallyLong(lanes: seq<Lane>) {
    forall i, j :: 0 <= i < |lanes| && 0 <= j < |lanes| ==> |lanes[i].raws| == |lanes[j].raws|
  }

  /**
   * All that a batch records is handed out to run, if and only if the batch
   * succeeds and its lanes are equally long, or it fails before recording anything:
   * at the first action of its first lane.
   */
  lemma AllIsExecutedIff(adapter: Adapter, convert: Convert, lanes: seq<Lane>)
    ensures (forall i :: 0 <= i < |lanes| ==>
               |Recorded(adapter, convert, lanes, i)| == HandedOutOf(adapter, convert, lanes))
            <==> || (CompleteUpTo(adapter, convert, lanes, |lanes|) && EquallyLong(lanes))
                 || (lanes != [] && !Complete(adapter, convert, lanes[0]) && AppliedRows(adapter, convert, lanes[0].raws) == [])
  {
    hide AppliedRows, Shortest;
    ShortestIsLeast(RawsOf(lanes));
    if CompleteUpTo(adapter, convert, lanes, |lanes|) {
      forall i | 0 <= i < |lanes| ensures |Recorded(adapter, convert, lanes, i)| == |lanes[i].raws| == |RawsOf(lanes)[i]| {
        assert Complete(adapter, convert, lanes[i]);
      }
    } else {
      FailedBatchRecordsNothingIff(adapter, convert, lanes);
    }
  }

  lemma FailedBatchRecordsNothingIff(adapter: Adapter, convert: Convert, lanes: seq<Lane>)
    requires !CompleteUpTo(adapter, convert, lanes, |lanes|)
    ensures (forall i :: 0 <= i < |lanes| ==> |Recorded(adapter, convert, lanes, i)| == 0)
            <==> !Complete(adapter, convert, lanes[0]) && AppliedRows(adapter, convert, lanes[0].raws) == []
  {
    hide AppliedRows;
    assert Recorded(adapter, convert, lanes, 0) == AppliedRows(adapter, convert, lanes[0].raws);
    if !Complete(adapter, convert, lanes[0]) {
      assert forall i :: 0 < i < |lanes| ==> !CompleteUpTo(adapter, convert, lanes, i);
    }
  }

  /** After a batch a lane's next chunk starts past all it recorded, and so past what runs, if that is less. */
  lemma RaggedLaneRunsAhead(adapter: Adapter, convert: Convert, inner: Buffers, lanes: seq<Lane>, i: nat)
    requires adapter.ReadsPrevious() && OwnEpisodes(lanes) && i < |lanes| && Get(inner, lanes[i].id).Some?
    ensures var start := ChunkStart(Get(inner, lanes[i].id));
            var next := ChunkStart(Get(ApplyLanes(adapter, convert, inner, lanes, |lanes|).0, lanes[i].id));
            && next == start + |Recorded(adapter, convert, lanes, i)|
            && (next == start + HandedOutOf(adapter, convert, lanes) <==>
                  |Recorded(adapter, convert, lanes, i)| == HandedOutOf(adapter, convert, lanes))
  {
    hide ApplyLanes, ChunkStart, HandedOutOf;
    var cell, rows := Get(inner, lanes[i].id), Recorded(adapter, convert, lanes, i);
    BatchRecords(adapter, convert, inner, lanes, |lanes|, i);
    RecordedIsAccepted(adapter, convert, lanes, i, cell);
    if rows != [] {
      ChunkStartMoves(adapter, cell, rows);
    }
  }

  lemma RecordedIsAccepted(adapter: Adapter, convert: Convert, lanes: seq<Lane>, i: nat, cell: Cell)
    requires i < |lanes|
    ensures RecordFrom(adapter, cell, Recorded(adapter, convert, lanes, i), ChunkStart(cell)).1.Ok?
  {
    hide ChunkStart, AppliedRows, CompleteUpTo;
    RecordsWhatItApplied(adapter, convert, cell, lanes[i].raws, ChunkStart(cell));
  }

  /** Recording a chunk moves the start of the next one by its length. */
  lemma ChunkStartMoves(adapter: Adapter, cell: Cell, rows: seq<Row>)
    requires adapter.ReadsPrevious() && cell.Some? && rows != []
    requires RecordFrom(adapter, cell, rows, ChunkStart(cell)).1.Ok?
    ensures ChunkStart(RecordFrom(adapter, cell, rows, ChunkStart(cell)).0) == ChunkStart(cell) + |rows|
  {
    var start := ChunkStart(cell);
    StartIsPast(cell);
    RecordAdds(adapter, cell, rows, start);
    var next := RecordFrom(adapter, cell, rows, start).0;
    assert start + |rows| - 1 in next.value.actions;
    assert LastOf(next.value.actions.Keys) in next.value.actions;
  }

  lemma StartIsPast(cell: Cell)
    requires cell.Some?
    ensures forall k :: k in cell.value.actions ==> k < ChunkStart(cell)
    ensures cell.value.lastStep.Some? ==> cell.value.lastStep.value <= ChunkStart(cell)
  {
  }

  /** In a lane's own run, a batch is one chunk of what it recorded there. */
  lemma BatchIsAChunk(
      adapter: Adapter, repack: Repack, convert: Convert, inner: Buffers, lanes: seq<Lane>, i: nat, first: int, events: seq<Event>)
    requires OwnEpisodes(lanes) && i < |lanes| && Get(inner, lanes[i].id) == After(adapter, repack, first, events)
    ensures var longer := events + [Chunk(Recorded(adapter, convert, lanes, i))];
            && Get(ApplyLanes(adapter, convert, inner, lanes, |lanes|).0, lanes[i].id) == After(adapter, repack, first, longer)
            && (Clean(adapter, repack, first, events) ==> Clean(adapter, repack, first, longer))
  {
    hide ApplyLanes, ChunkStart, Run, Clean, Recorded;
    BatchRecords(adapter, convert, inner, lanes, |lanes|, i);
    RecordedIsAccepted(adapter, convert, lanes, i, Get(inner, lanes[i].id));
    OneMoreEvent(adapter, repack, first, events, Chunk(Recorded(adapter, convert, lanes, i)));
  }

  // ----- A ragged batch, and a failed one

  lemma LaneOfOne(convert: Convert, x: Value, r: Row, v: Value)
    requires convert(x) == Some(Applied(r, v)) && |r| == 1
    ensures AppliedRows(Echo(), convert, [x]) == [r]
  {
    assert [x][1..] == [];
  }

  lemma LaneOfTwo(convert: Convert, x: Value, r: Row, v: Value, y: Value, s: Row, w: Value)
    requires convert(x) == Some(Applied(r, v)) && convert(y) == Some(Applied(s, w)) && |r| == |s| == 1
    ensures AppliedRows(Echo(), convert, [x, y]) == [r, s]
  {
    assert [x, y][1..] == [y];
    LaneOfOne(convert, y, s, w);
  }

  function RaggedLanes(x: Value, y: Value, z: Value): seq<Lane> {
    [Lane("a", [x, y]), Lane("b", [z])]
  }

  /** A lane of two actions beside a lane of one: it records both and runs one. */
  lemma RaggedBatch(convert: Convert, x: Value, r: Row, v: Value, y: Value, s: Row, w: Value, z: Value, t: Row, u: Value)
    requires convert(x) == Some(Applied(r, v)) && convert(y) == Some(Applied(s, w)) && convert(z) == Some(Applied(t, u))
    requires |r| == |s| == |t| == 1
    ensures var lanes := RaggedLanes(x, y, z);
            && OwnEpisodes(lanes) && CompleteUpTo(Echo(), convert, lanes, 2)
            && Recorded(Echo(), convert, lanes, 0) == [r, s] && HandedOutOf(Echo(), convert, lanes) == 1
  {
    hide AppliedRows;
    var lanes := RaggedLanes(x, y, z);
    LaneOfTwo(convert, x, r, v, y, s, w);
    LaneOfOne(convert, z, t, u);
    assert Complete(Echo(), convert, lanes[0]) && Complete(Echo(), convert, lanes[1]);
    assert RawsOf(lanes) == [[x, y], [z]] && [[x, y], [z]][..1] == [[x, y]] && [[x, y]][..0] == [];
    assert Shortest([[x, y]]) == 2;
  }

  /**
   * The batch records `[r, s]` for lane "a" and hands out only the value of the
   * first.  When the lane's next batch, of one action `q`, has run, the prediction
   * that follows reads `s`, which never ran.
   */
  lemma RaggedLaneReadsWhatNeverRan(
      first: int, raw: RawObs, convert: Convert, inner: Buffers, later: Buffers, frames: Frames,
      x: Value, r: Row, v: Value, y: Value, s: Row, w: Value, z: Value, t: Row, u: Value, n: Value, q: Row, m: Value)
    requires convert(x) == Some(Applied(r, v)) && convert(y) == Some(Applied(s, w)) && convert(z) == Some(Applied(t, u))
    requires convert(n) == Some(Applied(q, m)) && |r| == |s| == |t| == |q| == 1
    requires Get(inner, "a") == After(Echo(), Unchanged(), first, [Tick(true, raw)])
    requires Get(later, "a") == After(Echo(), Unchanged(), first, [Tick(true, raw), Chunk([r, s]), Tick(true, raw)])
    requires var batch := ApplyLanes(Echo(), convert, inner, RaggedLanes(x, y, z), 2).1;
             batch.Ok? ==> IsBatch(frames, batch.value)
    ensures var lanes, next := RaggedLanes(x, y, z), [Lane("a", [n])];
            var (after, batch) := ApplyLanes(Echo(), convert, inner, lanes, 2);
            var run, cuts := RaggedRun(raw, r, s, q), [0, 1, 0, 1];
            && batch.Ok? && IsBatch(frames, batch.value) && |batch.value| == 2
            && Executed(frames, 0) == [v]
            && Get(after, "a") == After(Echo(), Unchanged(), first, run[..2])
            && Get(ApplyLanes(Echo(), convert, later, next, 1).0, "a") == After(Echo(), Unchanged(), first, run)
            && Clean(Echo(), Unchanged(), first, run) && WellCut(run, cuts)
            && RunsWhatIsHandedOut(run + [Tick(true, raw)], cuts + [0])
            && HandedOut(run, cuts) == [0, 2] && Actions(run) == [r, s, q]
            && ReadAt(Echo(), Unchanged(), first, run) == Ok(Some(s))
  {
    hide Run, Clean, KeepsUp, Quiet, Actions, Ticks, HasPredicted, ReadAt, Echo, Unchanged, ApplyLanes, Recorded,
         HandedOutOf, CompleteUpTo, OwnEpisodes, IsBatch, HandedOut, RunsWhatIsHandedOut, WholeBefore, WellCut;
    var lanes, run := RaggedLanes(x, y, z), RaggedRun(raw, r, s, q);
    RaggedBatch(convert, x, r, v, y, s, w, z, t, u);
    SucceedsIff(Echo(), convert, inner, lanes, 2);
    BatchHandsOut(Echo(), convert, inner, lanes, frames, 0);
    BatchIsAChunk(Echo(), Unchanged(), convert, inner, lanes, 0, first, [Tick(true, raw)]);
    assert [Tick(true, raw)] + [Chunk([r, s])] == run[..2];
    assert run[..3] == [Tick(true, raw), Chunk([r, s]), Tick(true, raw)];
    OneLaneBatch(convert, later, n, q, m, first, run[..3]);
    assert run[..3] + [Chunk([q])] == run;
    RaggedRunReads(first, raw, r, s, q);
  }

  function RaggedRun(raw: RawObs, r: Row, s: Row, q: Row): seq<Event> {
    [Tick(true, raw), Chunk([r, s]), Tick(true, raw), Chunk([q])]
  }

  lemma OneLaneBatch(convert: Convert, inner: Buffers, n: Value, q: Row, m: Value, first: int, events: seq<Event>)
    requires convert(n) == Some(Applied(q, m)) && |q| == 1
    requires Get(inner, "a") == After(Echo(), Unchanged(), first, events)
    ensures Get(ApplyLanes(Echo(), convert, inner, [Lane("a", [n])], 1).0, "a")
            == After(Echo(), Unchanged(), first, events + [Chunk([q])])
  {
    hide Run, ApplyLanes, AppliedRows, Echo, Unchanged;
    var lanes := [Lane("a", [n])];
    LaneOfOne(convert, n, q, m);
    assert OwnEpisodes(lanes) && Recorded(Echo(), convert, lanes, 0) == [q];
    BatchIsAChunk(Echo(), Unchanged(), convert, inner, lanes, 0, first, events);
  }

  lemma RaggedRunReads(first: int, raw: RawObs, r: Row, s: Row, q: Row)
    requires |r| == |s| == |q| == 1
    ensures var run, cuts := RaggedRun(raw, r, s, q), [0, 1, 0, 1];
            && Clean(Echo(), Unchanged(), first, run) && WellCut(run, cuts)
            && RunsWhatIsHandedOut(run + [Tick(true, raw)], cuts + [0])
            && HandedOut(run, cuts) == [0, 2] && Actions(run) == [r, s, q]
            && ReadAt(Echo(), Unchanged(), first, run) == Ok(Some(s))
  {
    hide Run, Clean, KeepsUp, Quiet, Actions, Ticks, HasPredicted, ReadAt, Echo, Unchanged, HandedOut,
         RunsWhatIsHandedOut, WholeBefore;
    var run, cuts := RaggedRun(raw, r, s, q), [0, 1, 0, 1];
    EchoIsQuiet();
    EchoIsOneWide();
    RaggedCounts(raw, r, s, q);
    RaggedHanded(raw, r, s, q);
    QuietRunsAreClean(Echo(), Unchanged(), first, run);
    QuietReads(Echo(), Unchanged());
    ReadsWhatRanIff(Echo(), Unchanged(), first, run, cuts, raw);
  }

  lemma EchoIsOneWide()
    ensures Echo().inDim == 1
  {
  }

  lemma QuietReads(adapter: Adapter, repack: Repack)
    requires Quiet(adapter, repack)
    ensures adapter.ReadsPrevious()
  {
  }

  lemma RaggedCounts(raw: RawObs, r: Row, s: Row, q: Row)
    ensures var run := RaggedRun(raw, r, s, q);
            && KeepsUp(run) && HasPredicted(run)
            && Ticks(run[..1]) == 1 && Ticks(run[..2]) == 1 && Ticks(run[..3]) == 2 && Ticks(run) == 2
            && Actions(run[..1]) == [] && Actions(run[..3]) == [r, s] && Actions(run) == [r, s, q]
  {
    hide KeepsUp, Actions, Ticks, HasPredicted, OldestKept, Awaiting, Paced;
    var none: seq<Event>, run := [], RaggedRun(raw, r, s, q);
    assert none + [run[0]] == run[..1] && run[..1] + [run[1]] == run[..2];
    assert run[..2] + [run[2]] == run[..3] && run[..3] + [run[3]] == run;
    NoEvents(0, 2);
    OneEvent(none, run[0], 0, 2);
    OneEvent(run[..1], run[1], 0, 2);
    OneEvent(run[..2], run[2], 0, 2);
    OneEvent(run[..3], run[3], 0, 2);
  }

  lemma RaggedHanded(raw: RawObs, r: Row, s: Row, q: Row)
    ensures var run, cuts := RaggedRun(raw, r, s, q), [0, 1, 0, 1];
            HandedOut(run, cuts) == [0, 2] && RunsWhatIsHandedOut(run + [Tick(true, raw)], cuts + [0])
  {
    hide KeepsUp, Actions, Ticks, HasPredicted, HandedOut, RunsWhatIsHandedOut;
    var none: seq<Event>, run := [], RaggedRun(raw, r, s, q);
    assert none + [run[0]] == run[..1] && run[..1] + [run[1]] == run[..2];
    assert run[..2] + [run[2]] == run[..3] && run[..3] + [run[3]] == run;
    assert [] + [0] == [0] && [0] + [1] == [0, 1] && [0, 1] + [0] == [0, 1, 0] && [0, 1, 0] + [1] == [0, 1, 0, 1];
    NoEvents(0, 2);
    NothingHanded();
    RaggedCounts(raw, r, s, q);
    OneMoreHanded(none, [], run[0], 0);
    OneMoreHanded(run[..1], [0], run[1], 1);
    assert HandedOut(run[..2], [0, 1]) == [0];
    OneMoreHanded(run[..2], [0, 1], run[2], 0);
    OneMoreHanded(run[..3], [0, 1, 0], run[3], 1);
    assert HandedOut(run, [0, 1, 0, 1]) == [0, 2];
    OneMoreHanded(run, [0, 1, 0, 1], Tick(true, raw), 0);
  }

  lemma NothingHanded()
    ensures HandedOut([], []) == [] && RunsWhatIsHandedOut([], [])
  {
  }

  /** A batch whose second lane does not convert hands out nothing, but its first lane has recorded. */
  lemma FailedBatchStillRecords(
      first: int, raw: RawObs, convert: Convert, inner: Buffers, x: Value, r: Row, v: Value, y: Value)
    requires convert(x) == Some(Applied(r, v)) && |r| == 1 && convert(y).None?
    requires Get(inner, "a") == After(Echo(), Unchanged(), first, [Tick(true, raw)])
    ensures var lanes := [Lane("a", [x]), Lane("b", [y])];
            var (after, batch) := ApplyLanes(Echo(), convert, inner, lanes, 2);
            && EquallyLong(lanes) && batch.Err? && HandedOutOf(Echo(), convert, lanes) == 0
            && Get(after, "a") == After(Echo(), Unchanged(), first, [Tick(true, raw), Chunk([r])])
  {
    hide Run, ApplyLanes, Echo, Unchanged;
    var lanes := [Lane("a", [x]), Lane("b", [y])];
    LaneOfOne(convert, x, r, v);
    assert AppliedRows(Echo(), convert, lanes[1].raws) == [] && !Complete(Echo(), convert, lanes[1]);
    assert Recorded(Echo(), convert, lanes, 0) == [r];
    SucceedsIff(Echo(), convert, inner, lanes, 2);
    BatchIsAChunk(Echo(), Unchanged(), convert, inner, lanes, 0, first, [Tick(true, raw)]);
    assert [Tick(true, raw)] + [Chunk([r])] == [Tick(true, raw), Chunk([r])];
  }
}
