/**
 * What the features of an accepted join say of the spaces they were joined
 * against, and exactly which tag trees are accepted
 * (crates/rlmesh-adapters/src/join.rs, `join_feature`).
 */
module JoinedFeatures {
  import opened Wrappers
  import opened Paths
  import opened Trees
  import opened Spaces
  import opened Layouts
  import opened SplitLayouts
  import opened Join
  import opened PathSoundness

  // ----- What one leaf joins to

  /** A dim is the entry of the shape, or 0 where a u32 cannot hold the entry. */
  ghost predicate IsDim(dim: nat, entry: int) {
    if 0 <= entry < 0x1_0000_0000 then dim == entry else dim == 0
  }

  /** The image of a leaf: its dims, laid out as the leaf declares, are the shape of the node. */
  ghost predicate IsImageOf(f: Feature, leaf: ObsLeaf, node: SpaceView) {
    && leaf.ImageLeaf? && f.ImageFeature? && |node.shape| == 3
    && (var dims := if leaf.chw then [f.channels, f.height, f.width] else [f.height, f.width, f.channels];
        forall k :: 0 <= k < 3 ==> IsDim(dims[k], node.shape[k]))
    && f.chw == leaf.chw && f.upsideDown == leaf.upsideDown
    && f.role == leaf.role && f.part == leaf.part
    && IsRangeOf(f.range, None, node, 0, Count(node))
  }

  /** The state of a whole leaf: as wide as the node has elements, with the tag's range or the node's own. */
  ghost predicate IsStateOf(f: Feature, leaf: ObsLeaf, node: SpaceView) {
    && leaf.StateLeaf? && f.StateFeature?
    && f.sliceOffset.None? && f.dim == Count(node)
    && f.role == leaf.role && f.part == leaf.part && f.provenance == leaf.provenance && f.labels == leaf.labels
    && IsRangeOf(f.range, leaf.range, node, 0, Count(node))
  }

  /** The features of a leaf met at a node: one for an image, state or text, one per roled field of a split. */
  ghost predicate Yields(leaf: ObsLeaf, path: NodePath, node: SpaceView, fs: seq<Feature>) {
    match leaf
    case ImageLeaf(_, _, _, _) => |fs| == 1 && fs[0].source == path && IsImageOf(fs[0], leaf, node)
    case StateLeaf(_, _, _, _, _, _) => |fs| == 1 && fs[0].source == path && IsStateOf(fs[0], leaf, node)
    case TextLeaf(role) => fs == [TextFeature(path, role)]
    case UnknownLeaf(_, _) => fs == []
    case SplitLeaf(fields) =>
      && |fs| == |Roled(fields, |fields|)|
      && forall m :: 0 <= m < |fs| ==>
           Roled(fields, |fields|)[m] < |fields| && Describes(fs[m], path, fields, node, Roled(fields, |fields|)[m])
  }

  /** The leaf may stand on the node it meets. */
  ghost predicate LeafFits(registry: Registry, leaf: ObsLeaf, node: SpaceView) {
    match leaf
    case UnknownLeaf(_, _) => true
    case ImageLeaf(role, _, _, _) =>
      node.kind == Box && |node.shape| == 3 && NamesKnownKind(role) && !("action/" <= role)
    case TextLeaf(role) => node.kind == TextSpace && NamesKnownKind(role) && !("action/" <= role)
    case StateLeaf(role, _, encoding, range, _, labels) =>
      && (node.kind.Box? || node.kind.Discrete? || node.kind.MultiBinary? || node.kind.MultiDiscrete?)
      && (encoding.None? || encoding == Some(Count(node)))
      && RoleFits(registry, role, Count(node))
      && (labels.Some? ==>
            && |labels.value| == Count(node) > 0
            && forall i, j :: 0 <= i < j < |labels.value| ==> labels.value[i] != labels.value[j])
      && TagFits(range, node, 0, Count(node))
    case SplitLeaf(fields) => LayoutFits(registry, fields, node)
  }

  lemma ImageJoins(source: NodePath, leaf: ObsLeaf, node: SpaceView)
    requires leaf.ImageLeaf?
    ensures var joined := JoinImage(source, leaf, node);
            && (joined.Ok? <==> node.kind == Box && |node.shape| == 3 && NamesKnownKind(leaf.role) && !("action/" <= leaf.role))
            && (joined.Ok? ==> joined.value.source == source && IsImageOf(joined.value, leaf, node))
  {
    hide KnownKind, NamesKnownKind, SliceRange, IsRangeOf;
    KnownKindIff(leaf.role);
    LeafRangeIs(node);
  }

  lemma LeafRangeIs(node: SpaceView)
    ensures IsRangeOf(LeafRange(node), None, node, 0, Count(node))
  {
    hide SliceRange, IsRangeOf;
    ReconcileGives(node, 0, Count(node), None);
  }

  lemma StateJoins(registry: Registry, source: NodePath, leaf: ObsLeaf, node: SpaceView)
    requires leaf.StateLeaf?
    ensures var joined := JoinState(registry, source, leaf, node);
            && (joined.Ok? <==> LeafFits(registry, leaf, node))
            && (joined.Ok? ==> joined.value.source == source && IsStateOf(joined.value, leaf, node))
  {
    hide CheckObservationRole, RoleFits, ReconcileRange, SliceRange, IsRangeOf, TagFits;
    RoleAcceptedIff(registry, leaf.role, Count(node));
    ReconcileGives(node, 0, Count(node), leaf.range);
  }

  /** A leaf joins exactly the nodes it may stand on, and what it joins to describes the node. */
  lemma LeafJoins(registry: Registry, source: NodePath, leaf: ObsLeaf, node: SpaceView)
    ensures var joined := JoinLeaf(registry, source, leaf, node);
            && (joined.Ok? <==> LeafFits(registry, leaf, node))
            && (joined.Ok? ==> Yields(leaf, source, node, joined.value.features))
  {
    hide JoinImage, JoinState, Split, KnownKind, NamesKnownKind, LayoutFits, IsImageOf, IsStateOf, Describes, TagFits, RoleFits;
    match leaf
    case UnknownLeaf(_, _) =>
    case ImageLeaf(_, _, _, _) => ImageJoins(source, leaf, node);
    case StateLeaf(_, _, _, _, _, _) => StateJoins(registry, source, leaf, node);
    case TextLeaf(role) => KnownKindIff(role);
    case SplitLeaf(fields) =>
      SplitAcceptedIff(registry, source, fields, node);
      if Split(registry, source, fields, node).Ok? {
        AcceptedSplitTiles(registry, source, fields, node);
      }
  }

  // ----- What a tag tree joins to

  ghost function Concat(parts: seq<seq<Feature>>): seq<Feature> {
    if parts == [] then [] else Concat(parts[..|parts| - 1]) + parts[|parts| - 1]
  }

  /** Leaf by leaf, the parts are what the leaves yield at the nodes their paths reach. */
  ghost predicate YieldEach(space: SpaceView, leaves: seq<Placed<ObsLeaf>>, parts: seq<seq<Feature>>) {
    && |parts| == |leaves|
    && forall i :: 0 <= i < |leaves| ==>
         && space.Reach(leaves[i].path.segs).Some?
         && Yields(leaves[i].leaf, leaves[i].path, space.Reach(leaves[i].path.segs).value, parts[i])
  }

  /** Every leaf reaches a node it may stand on. */
  ghost predicate AllFit(registry: Registry, space: SpaceView, leaves: seq<Placed<ObsLeaf>>) {
    forall i :: 0 <= i < |leaves| ==>
      space.Reach(leaves[i].path.segs).Some? && LeafFits(registry, leaves[i].leaf, space.Reach(leaves[i].path.segs).value)
  }

  lemma {:induction false} FlatYields(registry: Registry, space: SpaceView, leaves: seq<Placed<ObsLeaf>>)
    returns (parts: seq<seq<Feature>>)
    requires Flat(registry, space, leaves, 0).Some?
    ensures YieldEach(space, leaves, parts)
    ensures Flat(registry, space, leaves, 0).value.features == Concat(parts)
    decreases |leaves|
  {
    hide JoinLeaf, Flat, Yields;
    if leaves == [] {
      NoLeaves(registry, space, 0);
      parts := [];
    } else {
      FlatUnfolds(registry, space, leaves);
      var front, last := leaves[..|leaves| - 1], leaves[|leaves| - 1];
      var before := FlatYields(registry, space, front);
      var node := space.Reach(last.path.segs).value;
      LeafJoins(registry, last.path, last.leaf, node);
      parts := before + [JoinLeaf(registry, last.path, last.leaf, node).value.features];
      assert parts[..|parts| - 1] == before;
    }
  }

  /**
   * The features of an accepted join, in order and with nothing between them: for
   * each leaf of the tag tree, what it says of the node its path reaches.
   */
  lemma FeaturesDescribeTheirNodes(registry: Registry, tags: Tree<ObsLeaf>, space: SpaceView) returns (parts: seq<seq<Feature>>)
    requires JoinNode(registry, tags, space, ROOT).Ok?
    ensures YieldEach(space, Leaves(tags, ROOT), parts)
    ensures JoinNode(registry, tags, space, ROOT).value.features == Concat(parts)
  {
    hide JoinNode, Leaves, Flat, YieldEach;
    JoinFlattens(registry, tags, space, ROOT);
    parts := FlatYields(registry, space, Leaves(tags, ROOT));
  }

  lemma {:induction false} FlatAcceptedIff(registry: Registry, space: SpaceView, leaves: seq<Placed<ObsLeaf>>)
    ensures Flat(registry, space, leaves, 0).Some? <==> AllFit(registry, space, leaves)
    decreases |leaves|
  {
    hide JoinLeaf, LeafFits;
    if leaves != [] {
      var front, last := leaves[..|leaves| - 1], leaves[|leaves| - 1];
      FlatAcceptedIff(registry, space, front);
      assert last.path.segs[0..] == last.path.segs;
      if space.Reach(last.path.segs).Some? {
        LeafJoins(registry, last.path, last.leaf, space.Reach(last.path.segs).value);
      }
      assert AllFit(registry, space, leaves) <==>
          AllFit(registry, space, front) && space.Reach(last.path.segs).Some?
          && LeafFits(registry, last.leaf, space.Reach(last.path.segs).value);
    }
  }

  /** Exactly the tag trees that fit the space, every leaf on a node it may stand on, are accepted. */
  lemma TagsAcceptedIff(registry: Registry, tags: Tree<ObsLeaf>, space: SpaceView)
    ensures JoinNode(registry, tags, space, ROOT).Ok? <==> Fits(tags, space) && AllFit(registry, space, Leaves(tags, ROOT))
  {
    hide JoinNode, Leaves, Flat, Fits, AllFit;
    JoinAcceptedIff(registry, tags, space, ROOT);
    FlatAcceptedIff(registry, space, Leaves(tags, ROOT));
  }

  // ----- What a refusal names

  /** The error names something wrong with the leaf where it stands. */
  ghost predicate LeafFault(e: JoinError, registry: Registry, leaf: ObsLeaf, node: SpaceView) {
    match leaf
    case UnknownLeaf(_, _) => false
    case ImageLeaf(role, _, _, _) =>
      if e == ClassMismatch then node.kind != Box || |node.shape| != 3
      else e != RoleDimMismatch && RoleFault(e, registry, role, 0)
    case TextLeaf(role) =>
      if e == ClassMismatch then node.kind != TextSpace else e != RoleDimMismatch && RoleFault(e, registry, role, 0)
    case SplitLeaf(fields) => LayoutFault(e, registry, fields, node)
    case StateLeaf(role, _, encoding, range, _, labels) =>
      match e
      case ClassMismatch => !(node.kind.Box? || node.kind.Discrete? || node.kind.MultiBinary? || node.kind.MultiDiscrete?)
      case EncodingWidthMismatch => encoding.Some? && encoding != Some(Count(node))
      case InvalidLabels =>
        labels.Some? && (labels.value == [] || exists i, j :: 0 <= i < j < |labels.value| && labels.value[i] == labels.value[j])
      case LabelWidthMismatch => labels.Some? && |labels.value| != Count(node)
      case RangeDisagreement => !TagFits(range, node, 0, Count(node))
      case _ => RoleFault(e, registry, role, Count(node))
  }

  /** The error names something wrong somewhere in the tag tree. */
  ghost predicate TreeFault(e: JoinError, registry: Registry, node: Tree<ObsLeaf>, view: SpaceView)
    decreases node
  {
    match node
    case Leaf(leaf) => LeafFault(e, registry, leaf, view)
    case Dict(entries) =>
      || (e == ClassMismatch && view.kind != DictSpace)
      || exists i :: 0 <= i < |entries| &&
           (match view.Child(entries[i].0)
            case None => e == KeyNotInSpace
            case Some(child) => TreeFault(e, registry, entries[i].1, child))
    case Tuple(items) =>
      || (e == ClassMismatch && view.kind != TupleSpace)
      || (e == TupleArityMismatch && |items| != |view.children|)
      || (|items| == |view.children|
          && exists i :: 0 <= i < |items| && TreeFault(e, registry, items[i], view.children[i]))
  }

  lemma StateErrorHasCause(registry: Registry, source: NodePath, leaf: ObsLeaf, node: SpaceView)
    requires leaf.StateLeaf? && JoinState(registry, source, leaf, node).Err?
    ensures LeafFault(JoinState(registry, source, leaf, node).error, registry, leaf, node)
  {
    hide CheckObservationRole, RoleFault, ReconcileRange, SliceRange, TagFits;
    ReconcileGives(node, 0, Count(node), leaf.range);
    if CheckObservationRole(registry, leaf.role, Count(node)).Err? {
      RoleErrorHasCause(registry, leaf.role, Count(node));
      OnlyRoleFaults(CheckObservationRole(registry, leaf.role, Count(node)).error, registry, leaf.role, Count(node));
    }
  }

  lemma LeafErrorHasCause(registry: Registry, source: NodePath, leaf: ObsLeaf, node: SpaceView)
    requires JoinLeaf(registry, source, leaf, node).Err?
    ensures LeafFault(JoinLeaf(registry, source, leaf, node).error, registry, leaf, node)
  {
    hide JoinState, Split, KnownKind, NamesKnownKind, LayoutFault, TagFits;
    match leaf
    case UnknownLeaf(_, _) =>
    case ImageLeaf(role, _, _, _) => KnownKindIff(role);
    case TextLeaf(role) => KnownKindIff(role);
    case StateLeaf(_, _, _, _, _, _) => StateErrorHasCause(registry, source, leaf, node);
    case SplitLeaf(fields) => SplitErrorHasCause(registry, source, fields, node);
  }

  /** A refused tag tree has, somewhere, the fault its error names. */
  lemma {:induction false} JoinErrorHasCause(registry: Registry, node: Tree<ObsLeaf>, view: SpaceView, source: NodePath)
    requires JoinNode(registry, node, view, source).Err?
    ensures TreeFault(JoinNode(registry, node, view, source).error, registry, node, view)
    decreases node, 1
  {
    hide JoinLeaf, LeafFault;
    match node
    case Leaf(leaf) => LeafErrorHasCause(registry, source, leaf, view);
    case Dict(entries) =>
      if view.kind == DictSpace {
        EntriesErrorHasCause(registry, node, view, source, |entries|);
      }
    case Tuple(items) =>
      if view.kind == TupleSpace && |items| == |view.children| {
        ItemsErrorHasCause(registry, node, view, source, |items|);
      }
  }

  lemma {:induction false} EntriesErrorHasCause(registry: Registry, node: Tree<ObsLeaf>, view: SpaceView, source: NodePath, n: nat)
    requires node.Dict? && n <= |node.entries| && JoinEntries(registry, node, view, source, n).Err?
    ensures exists i :: 0 <= i < n &&
              match view.Child(node.entries[i].0)
              case None => JoinEntries(registry, node, view, source, n).error == KeyNotInSpace
              case Some(child) => TreeFault(JoinEntries(registry, node, view, source, n).error, registry, node.entries[i].1, child)
    decreases node, 0, n
  {
    hide JoinNode, TreeFault;
    if JoinEntries(registry, node, view, source, n - 1).Err? {
      EntriesErrorHasCause(registry, node, view, source, n - 1);
    } else {
      var (key, child) := node.entries[n - 1];
      if view.Child(key).Some? {
        JoinErrorHasCause(registry, child, view.Child(key).value, PushKey(source, key));
      }
      assert node.entries[n - 1].0 == key;
    }
  }

  lemma {:induction false} ItemsErrorHasCause(registry: Registry, node: Tree<ObsLeaf>, view: SpaceView, source: NodePath, n: nat)
    requires node.Tuple? && n <= |node.items| == |view.children| && JoinItems(registry, node, view, source, n).Err?
    ensures exists i :: 0 <= i < n && TreeFault(JoinItems(registry, node, view, source, n).error, registry, node.items[i], view.children[i])
    decreases node, 0, n
  {
    hide JoinNode, TreeFault;
    if JoinItems(registry, node, view, source, n - 1).Err? {
      ItemsErrorHasCause(registry, node, view, source, n - 1);
    } else {
      JoinErrorHasCause(registry, node.items[n - 1], view.children[n - 1], PushIndex(source, n - 1));
    }
  }
}
