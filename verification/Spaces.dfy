/** The structural view of a gymnasium space (crates/rlmesh-adapters/src/space_view.rs). */
module Spaces {
  import opened Wrappers
  import opened Paths

  datatype SpaceKind = Box | Discrete | MultiBinary | MultiDiscrete | TextSpace | DictSpace | TupleSpace | Unspecified

  /** One declared bound; NaN is not modelled. */
  datatype Bound = Finite(value: real) | Infinite(positive: bool)

  datatype SpaceView = SpaceView(
    kind: SpaceKind,
    shape: seq<int>,
    low: Option<seq<Bound>>,
    high: Option<seq<Bound>>,
    keys: seq<string>,
    children: seq<SpaceView>)
  {
    /** Scalar elements of this node's own shape; an unknown (negative) dim counts as 0. */
    function Numel(): nat {
      NumelOf(shape)
    }

    /** The Dict child registered under `key`. */
    function Child(key: string): (child: Option<SpaceView>)
      ensures child.Some? ==> kind == DictSpace && child.value in children
    {
      if kind != DictSpace then None
      else
        var at := PositionOf(keys, key, 0);
        if at.Some? && at.value < |children| then Some(children[at.value]) else None
    }

    /** The Tuple child at `index`. */
    function ChildAt(index: nat): (child: Option<SpaceView>)
      ensures child.Some? ==> kind == TupleSpace && child.value in children
    {
      if kind == TupleSpace && index < |children| then Some(children[index]) else None
    }

    /** The node a path leads to, key by key and index by index. */
    function Reach(path: seq<PathSeg>): Option<SpaceView>
      decreases path
    {
      if path == [] then Some(this)
      else
        var next := match path[0] case Key(name) => Child(name) case Index(i) => ChildAt(i);
        if next.None? then None else next.value.Reach(path[1..])
    }
  }

  function NumelOf(shape: seq<int>): nat {
    if shape == [] then 1 else (if shape[0] < 0 then 0 else shape[0]) * NumelOf(shape[1..])
  }

  /** The element count of joined shapes multiplies, and one axis counts its length, or none where it is unknown. */
  lemma {:induction false} NumelMultiplies(a: seq<int>, b: seq<int>)
    ensures NumelOf(a + b) == NumelOf(a) * NumelOf(b)
    ensures forall n: int :: NumelOf([n]) == if n < 0 then 0 else n
  {
    if a == [] {
      assert a + b == b;
    } else {
      assert (a + b)[1..] == a[1..] + b;
      NumelMultiplies(a[1..], b);
      var first: int := if a[0] < 0 then 0 else a[0];
      MultiplyAssociates(first, NumelOf(a[1..]), NumelOf(b));
    }
    forall n: int ensures NumelOf([n]) == if n < 0 then 0 else n {
      assert [n][1..] == [];
    }
  }

  lemma MultiplyAssociates(x: int, y: int, z: int)
    ensures x * (y * z) == x * y * z
  {
  }

  function PositionOf(keys: seq<string>, key: string, from: nat): (at: Option<nat>)
    requires from <= |keys|
    ensures at.Some? ==> from <= at.value < |keys| && keys[at.value] == key
    decreases |keys| - from
  {
    if from == |keys| then None else if keys[from] == key then Some(from) else PositionOf(keys, key, from + 1)
  }

  /** A Dict's child is the one at the first place its key is listed, and nothing else has children by key. */
  lemma ChildIsListed(view: SpaceView, key: string, child: SpaceView)
    ensures view.Child(key) == Some(child) <==>
              view.kind == DictSpace && exists i :: 0 <= i < |view.keys| && Lists(view, i, key, child)
  {
    var at := PositionOf(view.keys, key, 0);
    FirstPosition(view.keys, key, 0);
    if at.Some? && at.value < |view.children| {
      assert Lists(view, at.value, key, view.children[at.value]);
    }
  }

  /** The i-th key is the first of its name, and its child stands beside it. */
  ghost predicate Lists(view: SpaceView, i: nat, key: string, child: SpaceView)
    requires i < |view.keys|
  {
    view.keys[i] == key && key !in view.keys[..i] && i < |view.children| && view.children[i] == child
  }

  lemma {:induction false} FirstPosition(keys: seq<string>, key: string, from: nat)
    requires from <= |keys| && key !in keys[..from]
    ensures forall i :: 0 <= i < |keys| && keys[i] == key && key !in keys[..i] ==> PositionOf(keys, key, from) == Some(i)
    ensures PositionOf(keys, key, from).Some? ==> key !in keys[..PositionOf(keys, key, from).value]
    decreases |keys| - from
  {
    if from < |keys| {
      if keys[from] == key {
        assert forall i :: from < i <= |keys| ==> keys[..i][from] == key;
      } else {
        assert keys[..from + 1] == keys[..from] + [keys[from]];
        FirstPosition(keys, key, from + 1);
      }
    }
  }

  /** Paths compose: reaching through a child is reaching the longer path. */
  lemma {:induction false} ReachFurther(view: SpaceView, path: seq<PathSeg>, rest: seq<PathSeg>)
    ensures view.Reach(path).Some? ==> view.Reach(path + rest) == view.Reach(path).value.Reach(rest)
    decreases |path|
  {
    if path == [] {
      assert path + rest == rest;
    } else {
      var next := match path[0] case Key(name) => view.Child(name) case Index(i) => view.ChildAt(i);
      assert (path + rest)[0] == path[0] && (path + rest)[1..] == path[1..] + rest;
      if next.Some? {
        ReachFurther(next.value, path[1..], rest);
      }
    }
  }
}
