/**
 * What ran and what was recorded.  The log keeps every action of a chunk
 * (crates/rlmesh-adapters/src/stateful.rs, `record_action`), but a chunk may be cut
 * before it is handed out (crates/rlmesh/src/model/engine.rs,
 * `finish_route_frames_inner`): a prediction reads the action that ran just before
 * it exactly when no earlier chunk was cut short.
 */
module Execution {
  import opened Wrappers
  import opened Plans
  import opened Episodes
  import opened Runs
  import opened ChunkProtocol

  /** For each event that is a chunk, how many of its actions were handed out to run. */
  type Cuts = seq<nat>

  ghost predicate WellCut(events: seq<Event>, cuts: Cuts) {
    && |cuts| == |events|
    && forall n :: 0 <= n < |events| && events[n].Chunk? ==> cuts[n] <= |events[n].rows|
  }

  /** The positions, among all recorded actions, of those handed out, in the order they run. */
  ghost function HandedOut(events: seq<Event>, cuts: Cuts): seq<nat>
    requires |cuts| == |events|
    decreases |events|
  {
    if events == [] then []
    else
      var before, n := events[..|events| - 1], |events| - 1;
      HandedOut(before, cuts[..n])
      + if events[n].Chunk? then seq(cuts[n], i => |Actions(before)| + i) else []
  }

  /** Every env step after the first runs an action that was handed out, and chunks answer observations. */
  ghost predicate RunsWhatIsHandedOut(events: seq<Event>, cuts: Cuts)
    requires |cuts| == |events|
    decreases |events|
  {
    events == [] ||
    var before, n := events[..|events| - 1], |events| - 1;
    && RunsWhatIsHandedOut(before, cuts[..n])
    && if events[n].Tick? then Ticks(before) <= |HandedOut(before, cuts[..n])| || Ticks(before) == 0
       else Ticks(before) >= 1
  }

  ghost predicate AllWhole(events: seq<Event>, cuts: Cuts)
    requires |cuts| == |events|
  {
    forall n :: 0 <= n < |events| && events[n].Chunk? ==> cuts[n] == |events[n].rows|
  }

  /** Everything handed out up to the `n`-th event is among the first `k` actions to run. */
  ghost predicate FinishedBy(events: seq<Event>, cuts: Cuts, n: nat, k: nat)
    requires n < |events| == |cuts|
  {
    |HandedOut(events[..n + 1], cuts[..n + 1])| <= k
  }

  /** Every chunk that is finished before the `k`-th action to run was handed out whole. */
  ghost predicate WholeBefore(events: seq<Event>, cuts: Cuts, k: nat)
    requires |cuts| == |events|
  {
    forall n :: 0 <= n < |events| && events[n].Chunk? && FinishedBy(events, cuts, n, k) ==> cuts[n] == |events[n].rows|
  }

  /** No more is handed out than recorded, and as much only if nothing is cut. */
  lemma {:induction false} HandedAtMostRecorded(events: seq<Event>, cuts: Cuts)
    requires WellCut(events, cuts)
    ensures |HandedOut(events, cuts)| <= |Actions(events)|
    ensures |HandedOut(events, cuts)| == |Actions(events)| <==> AllWhole(events, cuts)
    decreases |events|
  {
    if events != [] {
      var before, n := events[..|events| - 1], |events| - 1;
      HandedAtMostRecorded(before, cuts[..n]);
      assert AllWhole(events, cuts) <==> AllWhole(before, cuts[..n]) && (events[n].Chunk? ==> cuts[n] == |events[n].rows|);
    }
  }

  lemma {:induction false} HandedGrows(events: seq<Event>, cuts: Cuts, n: nat)
    requires |cuts| == |events| && n <= |events|
    ensures |HandedOut(events[..n], cuts[..n])| <= |HandedOut(events, cuts)|
    decreases |events|
  {
    if n == |events| {
      assert events[..n] == events && cuts[..n] == cuts;
    } else {
      var m := |events| - 1;
      assert events[..m][..n] == events[..n] && cuts[..m][..n] == cuts[..n];
      HandedGrows(events[..m], cuts[..m], n);
    }
  }

  /** A run whose steps run what was handed out keeps up with what was recorded. */
  lemma {:induction false} RunningKeepsUp(events: seq<Event>, cuts: Cuts)
    requires WellCut(events, cuts) && RunsWhatIsHandedOut(events, cuts)
    ensures KeepsUp(events)
    decreases |events|
  {
    if events != [] {
      var before, n := events[..|events| - 1], |events| - 1;
      RunningKeepsUp(before, cuts[..n]);
      HandedAtMostRecorded(before, cuts[..n]);
    }
  }

  /** The chunks finished before an action of the last chunk are all the earlier ones. */
  lemma WholeBeforeLast(events: seq<Event>, cuts: Cuts, k: nat)
    requires WellCut(events, cuts) && events != [] && k < |HandedOut(events, cuts)|
    ensures var m := |events| - 1;
            && (k < |HandedOut(events[..m], cuts[..m])| ==> (WholeBefore(events, cuts, k) <==> WholeBefore(events[..m], cuts[..m], k)))
            && (k >= |HandedOut(events[..m], cuts[..m])| ==> (WholeBefore(events, cuts, k) <==> AllWhole(events[..m], cuts[..m])))
  {
    hide HandedOut;
    var m := |events| - 1;
    var handed := |HandedOut(events[..m], cuts[..m])|;
    assert events[..m + 1] == events && cuts[..m + 1] == cuts;
    forall n | 0 <= n < m
      ensures FinishedBy(events, cuts, n, k) <==> FinishedBy(events[..m], cuts[..m], n, k)
      ensures handed <= k ==> FinishedBy(events[..m], cuts[..m], n, k)
    {
      assert events[..m][..n + 1] == events[..n + 1] && cuts[..m][..n + 1] == cuts[..n + 1];
      HandedGrows(events[..m], cuts[..m], n + 1);
    }
  }

  /** The `k`-th action to run is the `k`-th recorded, if and only if every chunk finished before it was whole. */
  lemma {:induction false} RanAtIff(events: seq<Event>, cuts: Cuts, k: nat)
    requires WellCut(events, cuts) && k < |HandedOut(events, cuts)|
    ensures k <= HandedOut(events, cuts)[k] < |Actions(events)|
    ensures HandedOut(events, cuts)[k] == k <==> WholeBefore(events, cuts, k)
    decreases |events|
  {
    hide WholeBefore, AllWhole;
    var before, n := events[..|events| - 1], |events| - 1;
    HandedAtMostRecorded(before, cuts[..n]);
    WholeBeforeLast(events, cuts, k);
    if k < |HandedOut(before, cuts[..n])| {
      RanAtIff(before, cuts[..n], k);
    }
  }

  ghost predicate AllDifferent(rows: seq<Row>) {
    forall i, j :: 0 <= i < j < |rows| ==> rows[i] != rows[j]
  }

  /** The position of the action that ran just before the next step. */
  ghost function RanLast(before: seq<Event>, cuts: Cuts): nat
    requires |cuts| == |before| && 1 <= Ticks(before) <= |HandedOut(before, cuts)|
  {
    HandedOut(before, cuts)[Ticks(before) - 1]
  }

  /**
   * A later prediction reads the row recorded for the step before it.  That is the
   * action that ran there, if and only if no chunk finished earlier was cut short;
   * where the recorded rows all differ, any other row read is another action's.
   */
  lemma ReadsWhatRanIff(adapter: Adapter, repack: Repack, first: int, before: seq<Event>, cuts: Cuts, raw: RawObs)
    requires adapter.ReadsPrevious() && Clean(adapter, repack, first, before)
    requires WellCut(before, cuts) && RunsWhatIsHandedOut(before + [Tick(true, raw)], cuts + [0]) && HasPredicted(before)
    ensures 1 <= Ticks(before) <= |HandedOut(before, cuts)| <= |Actions(before)|
    ensures var ran, t := RanLast(before, cuts), Ticks(before) - 1;
            var read := ReadAt(adapter, repack, first, before);
            && ran < |Actions(before)|
            && read == Ok(Some(Actions(before)[t]))
            && (ran == t <==> WholeBefore(before, cuts, t))
            && (WholeBefore(before, cuts, t) ==> read == Ok(Some(Actions(before)[ran])))
            && (AllDifferent(Actions(before)) ==>
                  (read == Ok(Some(Actions(before)[ran])) <==> WholeBefore(before, cuts, t)))
  {
    hide Run, Clean, HandedOut, Actions, WholeBefore, ReadAt, KeepsUp, RunsWhatIsHandedOut;
    var events, all := before + [Tick(true, raw)], cuts + [0];
    RunningKeepsUp(events, all);
    EveryStepReadsTheActionBefore(adapter, repack, first, before, raw);
    StepRunsAnAction(before, cuts, raw);
    HandedAtMostRecorded(before, cuts);
    RanAtIff(before, cuts, Ticks(before) - 1);
  }

  lemma StepRunsAnAction(before: seq<Event>, cuts: Cuts, raw: RawObs)
    requires |cuts| == |before| && RunsWhatIsHandedOut(before + [Tick(true, raw)], cuts + [0])
    ensures Ticks(before) <= |HandedOut(before, cuts)| || Ticks(before) == 0
  {
    var events, all := before + [Tick(true, raw)], cuts + [0];
    assert events[..|events| - 1] == before && all[..|events| - 1] == cuts;
  }

  /** One event more, and what it does to what is handed out. */
  lemma OneMoreHanded(events: seq<Event>, cuts: Cuts, event: Event, cut: nat)
    requires |cuts| == |events|
    ensures var all, more := events + [event], cuts + [cut];
            && HandedOut(all, more) == HandedOut(events, cuts) + (if event.Chunk? then seq(cut, i => |Actions(events)| + i) else [])
            && (RunsWhatIsHandedOut(all, more) <==>
                  && RunsWhatIsHandedOut(events, cuts)
                  && if event.Tick? then Ticks(events) <= |HandedOut(events, cuts)| || Ticks(events) == 0 else Ticks(events) >= 1)
  {
    var all, more := events + [event], cuts + [cut];
    assert all[..|events|] == events && more[..|events|] == cuts;
  }
}
