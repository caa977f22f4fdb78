/**
 * How many action rows an episode holds
 * (crates/rlmesh-adapters/src/stateful.rs, the `actions` log and its pruning).
 */
module ActionRows {
  import opened Wrappers
  import opened Sets
  import opened Values
  import opened Paths
  import opened Plans
  import opened Episodes
  import opened Runs
  import opened ChunkProtocol

  /** The queue the newest unanswered prediction was made with. */
  ghost function Awaiting(events: seq<Event>): Option<int>
    decreases |events|
  {
    if events == [] then None
    else
      match events[|events| - 1]
      case Chunk(_) => None
      case Tick(assemble, _) => if assemble then Some(Queued(events)) else Awaiting(events[..|events| - 1])
  }

  /** Each chunk has at most `h` actions and answers a prediction made with at most `lead` actions queued. */
  ghost predicate Paced(events: seq<Event>, lead: nat, h: nat)
    decreases |events|
  {
    events == [] ||
    var before := events[..|events| - 1];
    var last := events[|events| - 1];
    && Paced(before, lead, h)
    && (last.Chunk? ==> |last.rows| <= h && Awaiting(before).Some? && Awaiting(before).value <= lead)
  }

  /** No chunk comes back before the first prediction. */
  lemma {:induction false} NoActionsBeforePredicting(events: seq<Event>, lead: nat, h: nat)
    requires Paced(events, lead, h)
    ensures !HasPredicted(events) ==> Actions(events) == [] && OldestKept(0, events) == 0
    ensures Awaiting(events).Some? ==> HasPredicted(events)
    decreases |events|
  {
    if events != [] {
      NoActionsBeforePredicting(events[..|events| - 1], lead, h);
    }
  }

  lemma {:induction false} OldestIsRelative(first: int, events: seq<Event>)
    ensures OldestKept(first, events) == first + OldestKept(0, events)
    decreases |events|
  {
    if events != [] {
      OldestIsRelative(first, events[..|events| - 1]);
    }
  }

  /** The log never reaches back behind the step before the last prediction. */
  lemma {:induction false} OldestBehind(events: seq<Event>)
    ensures OldestKept(0, events) <= if Ticks(events) <= 1 then 0 else Ticks(events) - 2
    decreases |events|
  {
    if events != [] {
      OldestBehind(events[..|events| - 1]);
      if HasPredicted(events[..|events| - 1]) {
        TickedIfPredicted(events[..|events| - 1]);
      }
    }
  }

  lemma {:induction false} TickedIfPredicted(events: seq<Event>)
    requires HasPredicted(events)
    ensures Ticks(events) >= 1
    decreases |events|
  {
    if HasPredicted(events[..|events| - 1]) {
      TickedIfPredicted(events[..|events| - 1]);
    }
  }

  /** Rows held: the row just read, the queue, and at most one chunk. */
  lemma {:induction false} RowsHeld(events: seq<Event>, lead: nat, h: nat)
    requires KeepsUp(events) && Paced(events, lead, h)
    ensures |Actions(events)| - OldestKept(0, events) <= lead + h + 1
    ensures Awaiting(events).Some? ==> |Actions(events)| - OldestKept(0, events) <= Awaiting(events).value + 1
    decreases |events|
  {
    if events != [] {
      var before := events[..|events| - 1];
      RowsHeld(before, lead, h);
      NoActionsBeforePredicting(before, lead, h);
      OldestBehind(before);
    }
  }

  // ----- The exact count

  /** How many steps of a run predicted. */
  ghost function Predictions(events: seq<Event>): nat
    decreases |events|
  {
    if events == [] then 0
    else
      Predictions(events[..|events| - 1])
      + if events[|events| - 1].Tick? && events[|events| - 1].assemble then 1 else 0
  }

  /** The env steps since the last one that predicted. */
  ghost function Since(events: seq<Event>): nat
    decreases |events|
  {
    if events == [] then 0
    else
      var before := Since(events[..|events| - 1]);
      match events[|events| - 1]
      case Chunk(_) => before
      case Tick(assemble, _) => if assemble then 0 else before + 1
  }

  /** The rows a run leaves: the queue, the rows run since the last prediction, and the row it read. */
  ghost function RowCount(events: seq<Event>): int {
    if Predictions(events) == 0 then 0
    else Queued(events) + Since(events) + if Predictions(events) >= 2 then 1 else 0
  }

  lemma {:induction false} PredictedIffCounted(events: seq<Event>)
    ensures HasPredicted(events) <==> Predictions(events) > 0
    decreases |events|
  {
    if events != [] {
      PredictedIffCounted(events[..|events| - 1]);
    }
  }

  lemma {:induction false} CountsTheRows(events: seq<Event>, lead: nat, h: nat)
    requires KeepsUp(events) && Paced(events, lead, h)
    ensures |Actions(events)| - OldestKept(0, events) == RowCount(events)
    decreases |events|
  {
    if events != [] {
      var before := events[..|events| - 1];
      CountsTheRows(before, lead, h);
      NoActionsBeforePredicting(before, lead, h);
      PredictedIffCounted(before);
    }
  }

  /** Every clean paced run leaves exactly that many rows. */
  lemma ActionRowsAre(adapter: Adapter, repack: Repack, first: int, events: seq<Event>, lead: nat, h: nat)
    requires adapter.ReadsPrevious() && KeepsUp(events) && Paced(events, lead, h)
    requires Clean(adapter, repack, first, events)
    ensures |OrDefault(After(adapter, repack, first, events)).actions| == RowCount(events)
  {
    hide Run, Clean, KeepsUp, Paced, RowCount;
    RunInProtocol(adapter, repack, first, events);
    CountsTheRows(events, lead, h);
    OldestIsRelative(first, events);
    var actions := OrDefault(After(adapter, repack, first, events)).actions;
    assert actions.Keys == Interval(OldestKept(first, events), first + |Actions(events)|);
  }

  /**
   * The log holds at most one chunk of `h` rows, if and only if the queue, the
   * steps since the last prediction and the row a later prediction read add up to
   * no more.
   */
  lemma AtMostOneChunkIff(adapter: Adapter, repack: Repack, first: int, events: seq<Event>, lead: nat, h: nat)
    requires adapter.ReadsPrevious() && KeepsUp(events) && Paced(events, lead, h)
    requires Clean(adapter, repack, first, events) && Predictions(events) > 0
    ensures |OrDefault(After(adapter, repack, first, events)).actions| <= h
            <==> Queued(events) + Since(events) + (if Predictions(events) >= 2 then 1 else 0) <= h
  {
    hide Run, Clean, KeepsUp, Paced;
    ActionRowsAre(adapter, repack, first, events, lead, h);
  }

  // ----- The exact bound

  /** The most rows a paced run can leave. */
  function MostRows(lead: nat, h: nat): nat {
    if h == 0 then 0 else if h == 1 then 2 else lead + h + 1
  }

  /** Chunks of one action never build a queue, so their lead is none. */
  lemma {:induction false} ShortChunksHaveNoLead(events: seq<Event>, lead: nat)
    requires Paced(events, lead, 1)
    ensures Paced(events, 0, 1)
    ensures Queued(events) <= 1 && (Awaiting(events).Some? ==> Queued(events) <= Awaiting(events).value <= 0)
    decreases |events|
  {
    if events != [] {
      ShortChunksHaveNoLead(events[..|events| - 1], lead);
    }
  }

  /** Empty chunks leave nothing to record. */
  lemma {:induction false} EmptyChunks(events: seq<Event>, lead: nat)
    requires Paced(events, lead, 0)
    ensures Actions(events) == [] && OldestKept(0, events) >= 0
    decreases |events|
  {
    if events != [] {
      EmptyChunks(events[..|events| - 1], lead);
      if HasPredicted(events[..|events| - 1]) {
        TickedIfPredicted(events[..|events| - 1]);
      }
    }
  }

  /** In every paced run an episode holds at most that many action rows, and never more than lead + h + 1. */
  lemma ActionRowsBounded(adapter: Adapter, repack: Repack, first: int, events: seq<Event>, lead: nat, h: nat)
    requires adapter.ReadsPrevious() && KeepsUp(events) && Paced(events, lead, h)
    requires Clean(adapter, repack, first, events)
    ensures |OrDefault(After(adapter, repack, first, events)).actions| <= MostRows(lead, h) <= lead + h + 1
  {
    hide Run, Clean, KeepsUp, Paced, RowCount;
    ActionRowsAre(adapter, repack, first, events, lead, h);
    CountsTheRows(events, lead, h);
    RowsHeld(events, lead, h);
    if h == 0 {
      EmptyChunks(events, lead);
    } else if h == 1 {
      ShortChunksHaveNoLead(events, lead);
      RowsHeld(events, 0, 1);
    }
  }

  // ----- The bound is reached

  /** Nothing but the log can fail: no stacked input, and pipelines that always produce. */
  ghost predicate Quiet(adapter: Adapter, repack: Repack) {
    && adapter.stacked == [] && adapter.ReadsPrevious()
    && forall raw, previous :: Repacked(adapter, repack, raw, previous).Some?
  }

  ghost predicate RowsAreWide(events: seq<Event>, width: nat) {
    forall n, i :: 0 <= n < |events| && events[n].Chunk? && 0 <= i < |events[n].rows| ==> |events[n].rows[i]| == width
  }

  lemma {:induction false} WideRowsRecord(adapter: Adapter, cell: Cell, rows: seq<Row>, start: int)
    requires forall i :: 0 <= i < |rows| ==> |rows[i]| == adapter.inDim
    ensures RecordFrom(adapter, cell, rows, start).1.Ok?
    decreases |rows|
  {
    if rows != [] {
      WideRowsRecord(adapter, Record(adapter, cell, rows[0], start).0, rows[1..], start + 1);
    }
  }

  /** Every run that keeps up is then clean. */
  lemma {:induction false} QuietRunsAreClean(adapter: Adapter, repack: Repack, first: int, events: seq<Event>)
    requires Quiet(adapter, repack) && KeepsUp(events) && RowsAreWide(events, adapter.inDim)
    ensures Clean(adapter, repack, first, events)
    decreases |events|
  {
    hide Repacked, ChunkStart, InProtocol, RecordFrom;
    if events != [] {
      var before := events[..|events| - 1];
      QuietRunsAreClean(adapter, repack, first, before);
      RunInProtocol(adapter, repack, first, before);
      var cell := After(adapter, repack, first, before);
      match events[|events| - 1]
      case Chunk(rows) => WideRowsRecord(adapter, cell, rows, ChunkStart(cell));
      case Tick(assemble, raw) => QuietTick(adapter, repack, cell, first, TallyOf(first, before), assemble, raw);
    }
  }

  lemma QuietTick(adapter: Adapter, repack: Repack, cell: Cell, first: int, t: Tally, assemble: bool, raw: RawObs)
    requires Quiet(adapter, repack) && InProtocol(cell, first, t) && Allowed(t, Tick(assemble, raw))
    ensures !DoTick(adapter, repack, cell, first + t.ticks, assemble, raw).1.Failed?
  {
    hide Transform, ReadPrevious;
    ReadInProtocol(adapter, cell, first, t);
    var read := ReadPrevious(adapter, Advance(cell, first + t.ticks).0, first + t.ticks).1;
    assert Repacked(adapter, repack, raw, read.value).Some?;
  }

  /** An adapter whose one input is its own previous action. */
  function Echo(): Adapter {
    Adapter([State(ROOT, true, (raw: RawObs, previous: Option<Row>) => Some(Number(0.0)))], 1, [], [ROOT])
  }

  function Unchanged(): Repack {
    (payload: Payload) => Some(payload)
  }

  lemma EchoIsQuiet()
    ensures Echo().Valid() && Quiet(Echo(), Unchanged())
  {
    var plans := Echo().plans;
    assert StackedOf(plans, 0) == [] && PreviousOf(plans, 0) == [];
    assert StackedOf(plans, 1) == [] && PreviousOf(plans, 1) == [ROOT];
    forall raw, previous ensures Repacked(Echo(), Unchanged(), raw, previous).Some? {
      assert Transform(plans, 0, raw, previous).Ok?;
      assert Transform(plans, 1, raw, previous).Ok?;
    }
  }

  /** A run whose last step predicts with `n` actions queued: each turn returns two and runs one. */
  ghost function Ramp(raw: RawObs, row: Row, n: nat): seq<Event> {
    if n == 0 then [Tick(true, raw), Chunk([row]), Tick(true, raw)]
    else Ramp(raw, row, n - 1) + [Chunk([row, row]), Tick(true, raw)]
  }

  /** The answer to that prediction is a chunk of `h`. */
  ghost function Fullest(raw: RawObs, row: Row, n: nat, h: nat): seq<Event> {
    Ramp(raw, row, n) + [Chunk(seq(h, _ => row))]
  }

  /** One event more, and what it does to all the counters. */
  lemma OneEvent(events: seq<Event>, event: Event, lead: nat, h: nat)
    ensures var all := events + [event];
            && Ticks(all) == Ticks(events) + (if event.Tick? then 1 else 0)
            && Actions(all) == Actions(events) + (if event.Chunk? then event.rows else [])
            && (HasPredicted(all) <==> HasPredicted(events) || (event.Tick? && event.assemble))
            && OldestKept(0, all) == (if event.Tick? && event.assemble && HasPredicted(events) then Ticks(events) - 1 else OldestKept(0, events))
            && Awaiting(all) == (if event.Chunk? then None else if event.assemble then Some(Queued(all)) else Awaiting(events))
            && (KeepsUp(all) <==>
                  && KeepsUp(events)
                  && if event.Tick? then Ticks(events) <= |Actions(events)| || Ticks(events) == 0 else Ticks(events) >= 1)
            && (Paced(all, lead, h) <==>
                  && Paced(events, lead, h)
                  && (event.Chunk? ==> |event.rows| <= h && Awaiting(events).Some? && Awaiting(events).value <= lead))
  {
    var all := events + [event];
    assert all[..|all| - 1] == events && all[|all| - 1] == event;
  }

  lemma StartOfRamp(raw: RawObs, row: Row, lead: nat, h: nat)
    requires h >= 1
    ensures Ramped(Ramp(raw, row, 0), 0, lead, h)
  {
    hide Ticks, Actions, HasPredicted, OldestKept, Awaiting, KeepsUp, Paced;
    NoEvents(lead, h);
    var one, two := [Tick(true, raw)], [Tick(true, raw), Chunk([row])];
    OneEvent([], Tick(true, raw), lead, h);
    assert [] + one == one;
    OneEvent(one, Chunk([row]), lead, h);
    assert one + [Chunk([row])] == two;
    OneEvent(two, Tick(true, raw), lead, h);
    assert two + one == Ramp(raw, row, 0);
  }

  lemma NoEvents(lead: nat, h: nat)
    ensures Ticks([]) == 0 && Actions([]) == [] && !HasPredicted([]) && OldestKept(0, []) == 0 && Awaiting([]).None?
    ensures KeepsUp([]) && Paced([], lead, h)
  {
  }

  /** The counters after `n` turns of the ramp. */
  ghost predicate Ramped(events: seq<Event>, n: nat, lead: nat, h: nat) {
    && KeepsUp(events) && Paced(events, lead, h) && HasPredicted(events)
    && Ticks(events) == n + 2 && |Actions(events)| == 2 * n + 1 && OldestKept(0, events) == n
    && Awaiting(events) == Some(n)
  }

  lemma {:induction false} RampClimbs(raw: RawObs, row: Row, n: nat, lead: nat, h: nat)
    requires n <= lead && h >= 1 && (n > 0 ==> h >= 2)
    ensures Ramped(Ramp(raw, row, n), n, lead, h)
  {
    hide Ticks, Actions, HasPredicted, OldestKept, Awaiting, KeepsUp, Paced;
    if n == 0 {
      StartOfRamp(raw, row, lead, h);
    } else {
      var events := Ramp(raw, row, n - 1);
      RampClimbs(raw, row, n - 1, lead, h);
      var answered := events + [Chunk([row, row])];
      OneEvent(events, Chunk([row, row]), lead, h);
      OneEvent(answered, Tick(true, raw), lead, h);
      assert answered + [Tick(true, raw)] == Ramp(raw, row, n);
    }
  }

  lemma {:induction false} RampIsWide(raw: RawObs, row: Row, n: nat)
    ensures RowsAreWide(Ramp(raw, row, n), |row|)
  {
    if n > 0 {
      RampIsWide(raw, row, n - 1);
    }
  }

  lemma FullestIsFull(raw: RawObs, row: Row, n: nat, lead: nat, h: nat)
    requires n <= lead && h >= 1 && (n > 0 ==> h >= 2)
    ensures var events := Fullest(raw, row, n, h);
            KeepsUp(events) && Paced(events, lead, h) && RowsAreWide(events, |row|)
            && |Actions(events)| - OldestKept(0, events) == n + h + 1
  {
    hide Ticks, Actions, HasPredicted, OldestKept, Awaiting, KeepsUp, Paced, Ramp;
    RampClimbs(raw, row, n, lead, h);
    RampIsWide(raw, row, n);
    OneEvent(Ramp(raw, row, n), Chunk(seq(h, _ => row)), lead, h);
  }

  /**
   * The bound is exact: for every lead and chunk length a clean paced run of a
   * real adapter leaves exactly that many rows.
   */
  lemma BoundIsReached(first: int, raw: RawObs, lead: nat, h: nat) returns (events: seq<Event>)
    ensures var adapter, repack := Echo(), Unchanged();
            && adapter.Valid() && adapter.ReadsPrevious()
            && KeepsUp(events) && Paced(events, lead, h) && Clean(adapter, repack, first, events)
            && |OrDefault(After(adapter, repack, first, events)).actions| == MostRows(lead, h)
  {
    hide Run, Clean, KeepsUp, Paced, RowCount, Quiet, Fullest, OldestKept, Actions;
    EchoIsQuiet();
    var n := if h <= 1 then 0 else lead;
    if h == 0 {
      events := [];
      NoEvents(lead, h);
    } else {
      events := Fullest(raw, [0.0], n, h);
      FullestIsFull(raw, [0.0], n, lead, h);
    }
    QuietRunsAreClean(Echo(), Unchanged(), first, events);
    ActionRowsAre(Echo(), Unchanged(), first, events, lead, h);
    CountsTheRows(events, lead, h);
  }

  /** So the log outgrows a chunk: with chunks of one action and no lead, it comes to hold two rows. */
  lemma LogOutgrowsAChunk(first: int, raw: RawObs, row: Row, last: Row)
    requires |row| == |last| == 1
    ensures var events := [Tick(true, raw), Chunk([row]), Tick(true, raw), Chunk([last])];
            && KeepsUp(events) && Paced(events, 0, 1) && Clean(Echo(), Unchanged(), first, events)
            && |OrDefault(After(Echo(), Unchanged(), first, events)).actions| == 2
  {
    hide Run, Clean, KeepsUp, Paced, RowCount, Quiet, OldestKept, Actions, Ticks, HasPredicted, Awaiting;
    EchoIsQuiet();
    var events := [Tick(true, raw), Chunk([row]), Tick(true, raw), Chunk([last])];
    StartOfRamp(raw, row, 0, 1);
    OneEvent(Ramp(raw, row, 0), Chunk([last]), 0, 1);
    assert Ramp(raw, row, 0) + [Chunk([last])] == events;
    QuietRunsAreClean(Echo(), Unchanged(), first, events);
    ActionRowsAre(Echo(), Unchanged(), first, events, 0, 1);
    CountsTheRows(events, 0, 1);
  }
}
