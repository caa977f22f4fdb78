/**
 * The lockstep walk of an observation tag tree against its space
 * (crates/rlmesh-adapters/src/join.rs, `join_node` and `join_feature`).
 */
module Join {
  import opened Wrappers
  import opened Paths
  import opened Trees
  import opened Spaces
  import opened Layouts
  import opened SplitLayouts

  datatype ObsLeaf =
    | ImageLeaf(role: string, part: Option<string>, chw: bool, upsideDown: bool)
    | StateLeaf(role: string, part: Option<string>, encoding: Option<nat>, range: Option<Range>,
                provenance: Option<string>, labels: Option<seq<string>>)
    | SplitLeaf(fields: seq<Field>)
    | TextLeaf(role: string)
    | UnknownLeaf(kind: string, unknownRole: Option<string>)

  /** A leaf of a kind this core does not define, recorded but not joined. */
  datatype Unknown = Unknown(source: NodePath, role: Option<string>, kind: string)

  datatype Joined = Joined(features: seq<Feature>, unknown: seq<Unknown>)

  const NOTHING := Joined([], [])

  function Both(a: Joined, b: Joined): Joined {
    Joined(a.features + b.features, a.unknown + b.unknown)
  }

  function U32Dim(shape: seq<int>, i: nat): nat {
    if i < |shape| && 0 <= shape[i] <= U32_MAX then shape[i] else 0
  }

  predicate Distinct(labels: seq<string>) {
    forall i, j :: 0 <= i < j < |labels| ==> labels[i] != labels[j]
  }

  function JoinImage(source: NodePath, leaf: ObsLeaf, view: SpaceView): Result<Feature, JoinError>
    requires leaf.ImageLeaf?
  {
    if view.kind != Box || |view.shape| != 3 then Err(ClassMismatch)
    else if !KnownKind(leaf.role) then Err(InvalidRole)
    else if IsActionRole(leaf.role) then Err(ActionRoleOnObservation)
    else
      var (h, w, c) := if leaf.chw then (1, 2, 0) else (0, 1, 2);
      Ok(ImageFeature(source, leaf.role, leaf.part, leaf.chw, leaf.upsideDown,
                      U32Dim(view.shape, h), U32Dim(view.shape, w), U32Dim(view.shape, c), LeafRange(view)))
  }

  function JoinState(registry: Registry, source: NodePath, leaf: ObsLeaf, view: SpaceView): Result<Feature, JoinError>
    requires leaf.StateLeaf?
  {
    var width := WidthOf(view);
    if !Numeric(view) then Err(ClassMismatch)
    else if leaf.encoding.Some? && width != leaf.encoding.value then Err(EncodingWidthMismatch)
    else if CheckObservationRole(registry, leaf.role, width).Err? then
      Err(CheckObservationRole(registry, leaf.role, width).error)
    else if leaf.labels.Some? && (leaf.labels.value == [] || !Distinct(leaf.labels.value)) then Err(InvalidLabels)
    else if leaf.labels.Some? && |leaf.labels.value| != width then Err(LabelWidthMismatch)
    else
      match ReconcileRange(LeafRange(view), leaf.range)
      case Err(e) => Err(e)
      case Ok(range) =>
        Ok(StateFeature(source, leaf.role, leaf.part, None, width, range, leaf.provenance, leaf.labels))
  }

  /** What one leaf joins to. */
  function JoinLeaf(registry: Registry, source: NodePath, leaf: ObsLeaf, view: SpaceView): Result<Joined, JoinError> {
    match leaf
    case UnknownLeaf(kind, role) => Ok(Joined([], [Unknown(source, role, kind)]))
    case ImageLeaf(_, _, _, _) =>
      (match JoinImage(source, leaf, view) case Err(e) => Err(e) case Ok(f) => Ok(Joined([f], [])))
    case StateLeaf(_, _, _, _, _, _) =>
      (match JoinState(registry, source, leaf, view) case Err(e) => Err(e) case Ok(f) => Ok(Joined([f], [])))
    case SplitLeaf(fields) =>
      (match Split(registry, source, fields, view) case Err(e) => Err(e) case Ok(fs) => Ok(Joined(fs, [])))
    case TextLeaf(role) =>
      if view.kind != TextSpace then Err(ClassMismatch)
      else if !KnownKind(role) then Err(InvalidRole)
      else if IsActionRole(role) then Err(ActionRoleOnObservation)
      else Ok(Joined([TextFeature(source, role)], []))
  }

  /** What a whole subtree joins to. */
  function JoinNode(registry: Registry, node: Tree<ObsLeaf>, view: SpaceView, source: NodePath): Result<Joined, JoinError>
    decreases node, 1
  {
    match node
    case Leaf(leaf) => JoinLeaf(registry, source, leaf, view)
    case Dict(entries) =>
      if view.kind != DictSpace then Err(ClassMismatch) else JoinEntries(registry, node, view, source, |entries|)
    case Tuple(items) =>
      if view.kind != TupleSpace then Err(ClassMismatch)
      else if |items| != |view.children| then Err(TupleArityMismatch)
      else JoinItems(registry, node, view, source, |items|)
  }

  function JoinEntries(registry: Registry, node: Tree<ObsLeaf>, view: SpaceView, source: NodePath, n: nat)
    : Result<Joined, JoinError>
    requires node.Dict? && n <= |node.entries|
    decreases node, 0, n
  {
    if n == 0 then Ok(NOTHING)
    else
      match JoinEntries(registry, node, view, source, n - 1)
      case Err(e) => Err(e)
      case Ok(before) =>
        var (key, child) := node.entries[n - 1];
        if view.Child(key).None? then Err(KeyNotInSpace)
        else
          match JoinNode(registry, child, view.Child(key).value, PushKey(source, key))
          case Err(e) => Err(e)
          case Ok(joined) => Ok(Both(before, joined))
  }

  function JoinItems(registry: Registry, node: Tree<ObsLeaf>, view: SpaceView, source: NodePath, n: nat)
    : Result<Joined, JoinError>
    requires node.Tuple? && n <= |node.items| && |node.items| == |view.children|
    decreases node, 0, n
  {
    if n == 0 then Ok(NOTHING)
    else
      match JoinItems(registry, node, view, source, n - 1)
      case Err(e) => Err(e)
      case Ok(before) =>
        match JoinNode(registry, node.items[n - 1], view.children[n - 1], PushIndex(source, n - 1))
        case Err(e) => Err(e)
        case Ok(joined) => Ok(Both(before, joined))
  }

  /** The two lists the walk appends to. */
  class JoinSink {
    var features: seq<Feature>
    var unknown: seq<Unknown>

    constructor ()
      ensures features == [] && unknown == []
    {
      features := [];
      unknown := [];
    }

    ghost function Value(): Joined
      reads this
    {
      Joined(features, unknown)
    }
  }

  lemma {:induction false} EntriesFail(registry: Registry, node: Tree<ObsLeaf>, view: SpaceView, source: NodePath, n: nat, m: nat)
    requires node.Dict? && n <= m <= |node.entries| && JoinEntries(registry, node, view, source, n).Err?
    ensures JoinEntries(registry, node, view, source, m) == JoinEntries(registry, node, view, source, n)
    decreases m - n
  {
    hide JoinNode;
    if n < m {
      EntriesFail(registry, node, view, source, n, m - 1);
    }
  }

  lemma {:induction false} ItemsFail(registry: Registry, node: Tree<ObsLeaf>, view: SpaceView, source: NodePath, n: nat, m: nat)
    requires node.Tuple? && n <= m <= |node.items| == |view.children| && JoinItems(registry, node, view, source, n).Err?
    ensures JoinItems(registry, node, view, source, m) == JoinItems(registry, node, view, source, n)
    decreases m - n
  {
    hide JoinNode;
    if n < m {
      ItemsFail(registry, node, view, source, n, m - 1);
    }
  }

  /** The walk of the source, appending as it goes. */
  method JoinTree(registry: Registry, node: Tree<ObsLeaf>, view: SpaceView, source: NodePath, sink: JoinSink)
    returns (r: Result<(), JoinError>)
    modifies sink
    ensures var joined := JoinNode(registry, node, view, source);
            if joined.Ok? then r == Ok(()) && sink.Value() == Both(old(sink.Value()), joined.value)
            else r == Err(joined.error)
    decreases node, 1
  {
    match node {
      case Leaf(leaf) =>
        var joined := JoinLeaf(registry, source, leaf, view);
        if joined.Err? {
          return Err(joined.error);
        }
        sink.features := sink.features + joined.value.features;
        sink.unknown := sink.unknown + joined.value.unknown;
        return Ok(());
      case Dict(_) =>
        if view.kind != DictSpace {
          return Err(ClassMismatch);
        }
        r := JoinDict(registry, node, view, source, sink);
      case Tuple(items) =>
        if view.kind != TupleSpace {
          return Err(ClassMismatch);
        }
        if |items| != |view.children| {
          return Err(TupleArityMismatch);
        }
        r := JoinTuple(registry, node, view, source, sink);
    }
  }

  method JoinDict(registry: Registry, node: Tree<ObsLeaf>, view: SpaceView, source: NodePath, sink: JoinSink)
    returns (r: Result<(), JoinError>)
    requires node.Dict?
    modifies sink
    ensures var joined := JoinEntries(registry, node, view, source, |node.entries|);
            if joined.Ok? then r == Ok(()) && sink.Value() == Both(old(sink.Value()), joined.value)
            else r == Err(joined.error)
    decreases node, 0
  {
    hide JoinNode;
    for i := 0 to |node.entries|
      invariant JoinEntries(registry, node, view, source, i).Ok?
      invariant sink.Value() == Both(old(sink.Value()), JoinEntries(registry, node, view, source, i).value)
    {
      var (key, child) := node.entries[i];
      var childView := view.Child(key);
      if childView.None? {
        EntriesFail(registry, node, view, source, i + 1, |node.entries|);
        return Err(KeyNotInSpace);
      }
      var done := JoinTree(registry, child, childView.value, PushKey(source, key), sink);
      if done.Err? {
        EntriesFail(registry, node, view, source, i + 1, |node.entries|);
        return done;
      }
    }
    return Ok(());
  }

  method JoinTuple(registry: Registry, node: Tree<ObsLeaf>, view: SpaceView, source: NodePath, sink: JoinSink)
    returns (r: Result<(), JoinError>)
    requires node.Tuple? && |node.items| == |view.children|
    modifies sink
    ensures var joined := JoinItems(registry, node, view, source, |node.items|);
            if joined.Ok? then r == Ok(()) && sink.Value() == Both(old(sink.Value()), joined.value)
            else r == Err(joined.error)
    decreases node, 0
  {
    hide JoinNode;
    for i := 0 to |node.items|
      invariant JoinItems(registry, node, view, source, i).Ok?
      invariant sink.Value() == Both(old(sink.Value()), JoinItems(registry, node, view, source, i).value)
    {
      var done := JoinTree(registry, node.items[i], view.children[i], PushIndex(source, i), sink);
      if done.Err? {
        ItemsFail(registry, node, view, source, i + 1, |node.items|);
        return done;
      }
    }
    return Ok(());
  }
}
