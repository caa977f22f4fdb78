/**
 * One model action that covers several steps, taken apart step by step
 * (crates/rlmesh-adapters/src/stateful.rs, `split_chunk`).
 */
module SplitChunk {
  import opened Wrappers
  import opened Tensors
  import opened Values

  /** Map fields that split to different numbers of steps. */
  datatype SplitError = HorizonMismatch

  /**
   * The number of steps a value carries, by its shape alone: a map has one only
   * when all its fields have one and agree, and an empty map has none to carry.
   */
  ghost function Horizon(v: Value): Option<nat> {
    match v
    case Dense(t) => if t.shape == [] then Some(1) else Some(t.shape[0])
    case List(items) => Some(|items|)
    case Map(m) =>
      if m == map[] then Some(0)
      else if exists h: nat :: forall k | k in m :: Horizon(m[k]) == Some(h) then
        var h: nat :| forall k | k in m :: Horizon(m[k]) == Some(h);
        Some(h)
      else None
    case _ => Some(1)
  }

  /** The action of step i, field by field. */
  ghost function StepOf(v: Value, i: nat): Value
    requires Horizon(v).Some? && i < Horizon(v).value
  {
    match v
    case Dense(t) => if t.shape == [] then v else Dense(Unstack(t)[i])
    case List(items) => items[i]
    case Map(m) =>
      assert m != map[];
      Map(map k | k in m :: StepOf(m[k], i))
    case _ => v
  }

  /** The fields split so far: each to its own steps, all to the same number of them. */
  ghost predicate SplitTo(m: map<string, Value>, fields: map<string, seq<Value>>, horizon: Option<nat>) {
    && fields.Keys <= m.Keys
    && (horizon.None? <==> fields == map[])
    && forall k :: k in fields ==>
         && Horizon(m[k]) == Some(|fields[k]|) == horizon
         && forall i :: 0 <= i < |fields[k]| ==> fields[k][i] == StepOf(m[k], i)
  }

  /** Split every field of a map, refusing fields that disagree on their horizon. */
  method SplitFields(action: Value) returns (r: Result<map<string, seq<Value>>, SplitError>, horizon: Option<nat>)
    requires action.Map?
    ensures r.Ok? ==> r.value.Keys == action.fields.Keys && SplitTo(action.fields, r.value, horizon)
    ensures r.Err? ==> Horizon(action).None?
    decreases action, 0
  {
    var m := action.fields;
    var pending := m.Keys;
    var fields: map<string, seq<Value>> := map[];
    horizon := None;
    while pending != {}
      invariant pending <= m.Keys && fields.Keys == m.Keys - pending
      invariant SplitTo(m, fields, horizon)
      decreases |pending|
    {
      var key :| key in pending;
      var frames := SplitChunk(m[key]);
      if frames.Err? {
        assert Horizon(m[key]).None?;
        return Err(frames.error), horizon;
      }
      if horizon.Some? && horizon.value != |frames.value| {
        var other :| other in fields;
        assert Horizon(m[other]) != Horizon(m[key]);
        return Err(HorizonMismatch), horizon;
      }
      pending := pending - {key};
      horizon := Some(|frames.value|);
      fields := fields[key := frames.value];
    }
    r := Ok(fields);
  }

  /** Zip split fields into one map per step. */
  method ZipSteps(m: map<string, Value>, fields: map<string, seq<Value>>, horizon: Option<nat>)
    returns (steps: seq<Value>)
    requires fields.Keys == m.Keys && SplitTo(m, fields, horizon)
    ensures Horizon(Map(m)) == Some(|steps|)
    ensures forall i :: 0 <= i < |steps| ==> steps[i] == StepOf(Map(m), i)
  {
    hide StepOf, Horizon;
    ZippedHorizon(m, fields, horizon);
    var h := if horizon.Some? then horizon.value else 0;
    steps := [];
    for i := 0 to h
      invariant |steps| == i
      invariant forall j :: 0 <= j < i ==> steps[j] == Map(map k | k in m :: fields[k][j])
    {
      steps := steps + [Map(map k | k in m :: fields[k][i])];
    }
    forall i | 0 <= i < h ensures steps[i] == StepOf(Map(m), i) {
      ZippedStep(m, fields, horizon, i);
    }
  }

  lemma ZippedHorizon(m: map<string, Value>, fields: map<string, seq<Value>>, horizon: Option<nat>)
    requires fields.Keys == m.Keys && SplitTo(m, fields, horizon)
    ensures Horizon(Map(m)) == if horizon.Some? then horizon else Some(0)
  {
    if m != map[] {
      var some :| some in m;
      MapSplitsIffFieldsAgree(m, horizon.value);
    }
  }

  /** Zipping the i-th step of every field gives the i-th step of the map. */
  lemma ZippedStep(m: map<string, Value>, fields: map<string, seq<Value>>, horizon: Option<nat>, i: nat)
    requires fields.Keys == m.Keys && SplitTo(m, fields, horizon)
    requires horizon == Horizon(Map(m)) && horizon.Some? && i < horizon.value
    ensures Map(map k | k in m :: fields[k][i]) == StepOf(Map(m), i)
  {
    var (zipped, stepped) := (map k | k in m :: fields[k][i], StepOf(Map(m), i).fields);
    assert forall k :: k in m ==> zipped[k] == stepped[k];
    assert zipped == stepped;
  }

  method SplitChunk(action: Value) returns (r: Result<seq<Value>, SplitError>)
    ensures r.Ok? <==> Horizon(action).Some?
    ensures r.Ok? ==> |r.value| == Horizon(action).value
    ensures r.Ok? ==> forall i :: 0 <= i < |r.value| ==> r.value[i] == StepOf(action, i)
    decreases action, 1
  {
    match action {
      case Dense(t) =>
        if t.shape == [] {
          return Ok([Dense(t)]);
        }
        var rows := Unstack(t);
        return Ok(seq(|rows|, i requires 0 <= i < |rows| => Dense(rows[i])));
      case List(items) =>
        return Ok(items);
      case Map(m) =>
        var fields, horizon := SplitFields(action);
        if fields.Err? {
          return Err(fields.error);
        }
        var steps := ZipSteps(m, fields.value, horizon);
        return Ok(steps);
      case _ =>
        return Ok([action]);
    }
  }

  /** A map splits exactly when all its fields split to one common number of steps. */
  lemma MapSplitsIffFieldsAgree(m: map<string, Value>, h: nat)
    requires m != map[]
    ensures Horizon(Map(m)) == Some(h) <==> forall k | k in m :: Horizon(m[k]) == Some(h)
  {
    var whole := Map(m);
    assert whole.fields == m;
    var some :| some in m;
    if forall k | k in m :: Horizon(m[k]) == Some(h) {
      assert Horizon(m[some]) == Some(h);
    }
  }

  /** The steps of a tensor stack back to it, those of a list are its items, and anything else but a map is one step itself. */
  lemma StepsMakeTheWhole(v: Value)
    requires !v.Map?
    ensures Horizon(v).Some?
    ensures v.List? ==> v.items == seq(Horizon(v).value, i requires 0 <= i < Horizon(v).value => StepOf(v, i))
    ensures !v.List? && (v.Dense? ==> v.tensor.shape == []) ==> Horizon(v) == Some(1) && StepOf(v, 0) == v
    ensures v.Dense? && v.tensor.shape != [] ==>
              && Horizon(v) == Some(v.tensor.shape[0])
              && (forall i :: 0 <= i < v.tensor.shape[0] ==> StepOf(v, i).Dense?)
              && (v.tensor.shape[0] > 0 ==>
                    Stack(seq<Tensor>(v.tensor.shape[0], i requires 0 <= i < v.tensor.shape[0] => StepOf(v, i).tensor)) == Ok(v.tensor))
  {
    if v.Dense? && v.tensor.shape != [] && v.tensor.shape[0] > 0 {
      var steps := seq<Tensor>(v.tensor.shape[0], i requires 0 <= i < v.tensor.shape[0] => StepOf(v, i).tensor);
      StackUnstack(v.tensor);
      assert steps == Unstack(v.tensor);
    }
  }

  /** The value a path of map keys leads to. */
  ghost function Field(v: Value, path: seq<string>): Option<Value> {
    if path == [] then Some(v)
    else if v.Map? && path[0] in v.fields then Field(v.fields[path[0]], path[1..])
    else None
  }

  /**
   * Splitting commutes with field access at every depth: the field of a step is
   * the step of the field, and every field carries the whole value's horizon.
   */
  lemma {:induction false} SplitCommutesWithField(v: Value, path: seq<string>, i: nat)
    requires Horizon(v).Some? && i < Horizon(v).value
    requires Field(v, path).Some?
    ensures Horizon(Field(v, path).value) == Horizon(v)
    ensures Field(StepOf(v, i), path) == Some(StepOf(Field(v, path).value, i))
    decreases path
  {
    if path != [] {
      var k := path[0];
      assert v == Map(v.fields);
      MapSplitsIffFieldsAgree(v.fields, Horizon(v).value);
      SplitCommutesWithField(v.fields[k], path[1..], i);
      assert StepOf(v, i).fields[k] == StepOf(v.fields[k], i);
    }
  }
}
