/**
 * Where a joined feature says it comes from is where it was joined: source
 * paths lead from the root space to the very node the leaf met.
 */
module PathSoundness {
  import opened Wrappers
  import opened Paths
  import opened Trees
  import opened Spaces
  import opened Layouts
  import opened SplitLayouts
  import opened Join

  /** The node a placed leaf's path leads to, below a base of `base` segments. */
  ghost function NodeOf(space: SpaceView, placed: Placed<ObsLeaf>, base: nat): Option<SpaceView>
    requires base <= |placed.path.segs|
  {
    space.Reach(placed.path.segs[base..])
  }

  ghost predicate Deep(leaves: seq<Placed<ObsLeaf>>, base: nat) {
    forall i :: 0 <= i < |leaves| ==> base <= |leaves[i].path.segs|
  }

  /** Joining leaf by leaf, each against the node its own path reaches: no tree, no lockstep. */
  ghost function Flat(registry: Registry, space: SpaceView, leaves: seq<Placed<ObsLeaf>>, base: nat): Option<Joined>
    requires Deep(leaves, base)
    decreases |leaves|
  {
    if leaves == [] then Some(NOTHING)
    else
      var last := leaves[|leaves| - 1];
      match Flat(registry, space, leaves[..|leaves| - 1], base)
      case None => None
      case Some(before) =>
        var node := NodeOf(space, last, base);
        if node.None? || JoinLeaf(registry, last.path, last.leaf, node.value).Err? then None
        else Some(Both(before, JoinLeaf(registry, last.path, last.leaf, node.value).value))
  }

  lemma BothIsMonoid(a: Joined, b: Joined, c: Joined)
    ensures Both(Both(a, b), c) == Both(a, Both(b, c))
    ensures Both(NOTHING, a) == a == Both(a, NOTHING)
  {
    assert a.features + b.features + c.features == a.features + (b.features + c.features);
    assert a.unknown + b.unknown + c.unknown == a.unknown + (b.unknown + c.unknown);
    assert [] + a.features == a.features == a.features + [];
    assert [] + a.unknown == a.unknown == a.unknown + [];
  }

  lemma {:induction false} FlatAppend(
      registry: Registry, space: SpaceView, a: seq<Placed<ObsLeaf>>, b: seq<Placed<ObsLeaf>>, base: nat)
    requires Deep(a, base) && Deep(b, base)
    requires Flat(registry, space, a, base).Some? && Flat(registry, space, b, base).Some?
    ensures Deep(a + b, base)
    ensures Flat(registry, space, a + b, base)
            == Some(Both(Flat(registry, space, a, base).value, Flat(registry, space, b, base).value))
    decreases |b|
  {
    hide JoinLeaf;
    if b == [] {
      assert a + b == a;
      BothIsMonoid(Flat(registry, space, a, base).value, NOTHING, NOTHING);
    } else {
      var front, last := b[..|b| - 1], b[|b| - 1];
      FlatAppend(registry, space, a, front, base);
      assert (a + b)[..|a + b| - 1] == a + front;
      assert (a + b)[|a + b| - 1] == last;
      var node := NodeOf(space, last, base).value;
      BothIsMonoid(Flat(registry, space, a, base).value, Flat(registry, space, front, base).value,
                   JoinLeaf(registry, last.path, last.leaf, node).value);
    }
  }

  /** Below one child, the parent's walk and the child's walk reach the same nodes. */
  lemma {:induction false} FlatBelow(
      registry: Registry, view: SpaceView, child: SpaceView, source: NodePath, seg: PathSeg, leaves: seq<Placed<ObsLeaf>>)
    requires view.Reach([seg]) == Some(child) && AllUnder(leaves, Push(source, seg))
    ensures Deep(leaves, |source.segs| + 1)
    ensures Flat(registry, view, leaves, |source.segs|) == Flat(registry, child, leaves, |source.segs| + 1)
    decreases |leaves|
  {
    hide JoinLeaf;
    if leaves != [] {
      var front, last := leaves[..|leaves| - 1], leaves[|leaves| - 1];
      FlatBelow(registry, view, child, source, seg, front);
      assert Push(source, seg).segs <= last.path.segs;
      assert last.path.segs[|source.segs|..] == [seg] + last.path.segs[|source.segs| + 1..];
      ReachFurther(view, [seg], last.path.segs[|source.segs| + 1..]);
    }
  }

  lemma ReachChild(view: SpaceView, seg: PathSeg)
    ensures view.Reach([seg]) == match seg case Key(name) => view.Child(name) case Index(i) => view.ChildAt(i)
  {
    assert [seg][1..] == [];
  }

  /** One child of a container, joined in lockstep and joined leaf by leaf. */
  lemma ChildFlattens(
      registry: Registry, child: Tree<ObsLeaf>, view: SpaceView, childView: SpaceView, source: NodePath, seg: PathSeg,
      done: seq<Placed<ObsLeaf>>, before: Joined)
    requires view.Reach([seg]) == Some(childView)
    requires JoinNode(registry, child, childView, Push(source, seg)).Ok?
    requires Deep(Leaves(child, Push(source, seg)), |source.segs| + 1)
    requires Flat(registry, childView, Leaves(child, Push(source, seg)), |source.segs| + 1)
             == Some(JoinNode(registry, child, childView, Push(source, seg)).value)
    requires Deep(done, |source.segs|) && Flat(registry, view, done, |source.segs|) == Some(before)
    ensures Deep(done + Leaves(child, Push(source, seg)), |source.segs|)
    ensures Flat(registry, view, done + Leaves(child, Push(source, seg)), |source.segs|)
            == Some(Both(before, JoinNode(registry, child, childView, Push(source, seg)).value))
  {
    hide JoinNode, Flat, Leaves;
    var leaves := Leaves(child, Push(source, seg));
    LeavesUnder(child, Push(source, seg));
    FlatBelow(registry, view, childView, source, seg, leaves);
    FlatAppend(registry, view, done, leaves, |source.segs|);
  }

  /** The lockstep walk is the leaf-by-leaf join. */
  lemma {:induction false} JoinFlattens(registry: Registry, node: Tree<ObsLeaf>, view: SpaceView, source: NodePath)
    requires JoinNode(registry, node, view, source).Ok?
    ensures Deep(Leaves(node, source), |source.segs|)
    ensures Flat(registry, view, Leaves(node, source), |source.segs|) == Some(JoinNode(registry, node, view, source).value)
    decreases node, 1
  {
    match node {
      case Leaf(leaf) =>
        var leaves := Leaves(node, source);
        assert leaves == [Placed(leaf, source)] && leaves[..0] == [];
        assert source.segs[|source.segs|..] == [];
        assert NodeOf(view, leaves[0], |source.segs|) == Some(view);
        OneLeaf(registry, view, leaves, |source.segs|);
      case Dict(entries) => EntriesFlatten(registry, node, view, source, |entries|);
      case Tuple(items) => ItemsFlatten(registry, node, view, source, |items|);
    }
  }

  lemma OneLeaf(registry: Registry, space: SpaceView, leaves: seq<Placed<ObsLeaf>>, base: nat)
    requires |leaves| == 1 && Deep(leaves, base) && NodeOf(space, leaves[0], base).Some?
    requires JoinLeaf(registry, leaves[0].path, leaves[0].leaf, NodeOf(space, leaves[0], base).value).Ok?
    ensures Flat(registry, space, leaves, base)
            == Some(JoinLeaf(registry, leaves[0].path, leaves[0].leaf, NodeOf(space, leaves[0], base).value).value)
  {
    hide JoinLeaf;
    assert leaves[..0] == [];
    BothIsMonoid(JoinLeaf(registry, leaves[0].path, leaves[0].leaf, NodeOf(space, leaves[0], base).value).value,
                 NOTHING, NOTHING);
  }

  lemma {:induction false} EntriesFlatten(
      registry: Registry, node: Tree<ObsLeaf>, view: SpaceView, source: NodePath, n: nat)
    requires node.Dict? && n <= |node.entries| && JoinEntries(registry, node, view, source, n).Ok?
    ensures Deep(EntryLeaves(node, source, n), |source.segs|)
    ensures Flat(registry, view, EntryLeaves(node, source, n), |source.segs|)
            == Some(JoinEntries(registry, node, view, source, n).value)
    decreases node, 0, n
  {
    hide JoinNode, Leaves, Flat;
    if n == 0 {
      NoLeaves(registry, view, |source.segs|);
    } else {
      var (key, child) := node.entries[n - 1];
      EntriesFlatten(registry, node, view, source, n - 1);
      ReachChild(view, Key(key));
      JoinFlattens(registry, child, view.Child(key).value, PushKey(source, key));
      ChildFlattens(registry, child, view, view.Child(key).value, source, Key(key),
                    EntryLeaves(node, source, n - 1), JoinEntries(registry, node, view, source, n - 1).value);
    }
  }

  lemma {:induction false} ItemsFlatten(
      registry: Registry, node: Tree<ObsLeaf>, view: SpaceView, source: NodePath, n: nat)
    requires node.Tuple? && n <= |node.items| == |view.children| && view.kind == TupleSpace
    requires JoinItems(registry, node, view, source, n).Ok?
    ensures Deep(ItemLeaves(node, source, n), |source.segs|)
    ensures Flat(registry, view, ItemLeaves(node, source, n), |source.segs|)
            == Some(JoinItems(registry, node, view, source, n).value)
    decreases node, 0, n
  {
    hide JoinNode, Leaves, Flat;
    if n == 0 {
      NoLeaves(registry, view, |source.segs|);
    } else {
      ItemsFlatten(registry, node, view, source, n - 1);
      ReachChild(view, Index(n - 1));
      JoinFlattens(registry, node.items[n - 1], view.children[n - 1], PushIndex(source, n - 1));
      ChildFlattens(registry, node.items[n - 1], view, view.children[n - 1], source, Index(n - 1),
                    ItemLeaves(node, source, n - 1), JoinItems(registry, node, view, source, n - 1).value);
    }
  }

  lemma NoLeaves(registry: Registry, space: SpaceView, base: nat)
    ensures Flat(registry, space, [], base) == Some(NOTHING)
  {
  }

  // ----- When a join is accepted

  /** Every Dict node meets a Dict space holding its keys, and every Tuple node a Tuple space of its arity. */
  ghost predicate Fits(node: Tree<ObsLeaf>, view: SpaceView)
    decreases node
  {
    match node
    case Leaf(_) => true
    case Dict(entries) =>
      && view.kind == DictSpace
      && forall i :: 0 <= i < |entries| ==>
           view.Child(entries[i].0).Some? && Fits(entries[i].1, view.Child(entries[i].0).value)
    case Tuple(items) =>
      && view.kind == TupleSpace && |items| == |view.children|
      && forall i :: 0 <= i < |items| ==> Fits(items[i], view.children[i])
  }

  lemma {:induction false} JoinFits(registry: Registry, node: Tree<ObsLeaf>, view: SpaceView, source: NodePath)
    requires JoinNode(registry, node, view, source).Ok?
    ensures Fits(node, view)
    decreases node, 1
  {
    hide JoinLeaf;
    match node {
      case Leaf(_) =>
      case Dict(entries) =>
        forall i | 0 <= i < |entries|
          ensures view.Child(entries[i].0).Some? && Fits(entries[i].1, view.Child(entries[i].0).value)
        {
          EntryJoined(registry, node, view, source, |entries|, i);
          JoinFits(registry, entries[i].1, view.Child(entries[i].0).value, PushKey(source, entries[i].0));
        }
      case Tuple(items) =>
        forall i | 0 <= i < |items| ensures Fits(items[i], view.children[i]) {
          ItemJoined(registry, node, view, source, |items|, i);
          JoinFits(registry, items[i], view.children[i], PushIndex(source, i));
        }
    }
  }

  lemma {:induction false} EntryJoined(
      registry: Registry, node: Tree<ObsLeaf>, view: SpaceView, source: NodePath, n: nat, i: nat)
    requires node.Dict? && i < n <= |node.entries| && JoinEntries(registry, node, view, source, n).Ok?
    ensures var (key, child) := node.entries[i];
            view.Child(key).Some? && JoinNode(registry, child, view.Child(key).value, PushKey(source, key)).Ok?
  {
    hide JoinNode;
    if i < n - 1 {
      EntryJoined(registry, node, view, source, n - 1, i);
    }
  }

  lemma {:induction false} ItemJoined(
      registry: Registry, node: Tree<ObsLeaf>, view: SpaceView, source: NodePath, n: nat, i: nat)
    requires node.Tuple? && i < n <= |node.items| == |view.children| && JoinItems(registry, node, view, source, n).Ok?
    ensures JoinNode(registry, node.items[i], view.children[i], PushIndex(source, i)).Ok?
  {
    hide JoinNode;
    if i < n - 1 {
      ItemJoined(registry, node, view, source, n - 1, i);
    }
  }

  /** Leaves that join together join apart. */
  lemma {:induction false} FlatParts(
      registry: Registry, space: SpaceView, a: seq<Placed<ObsLeaf>>, b: seq<Placed<ObsLeaf>>, base: nat)
    requires Deep(a, base) && Deep(b, base) && Deep(a + b, base) && Flat(registry, space, a + b, base).Some?
    ensures Flat(registry, space, a, base).Some? && Flat(registry, space, b, base).Some?
    decreases |b|
  {
    hide JoinLeaf;
    if b == [] {
      assert a + b == a;
    } else {
      assert (a + b)[..|a + b| - 1] == a + b[..|b| - 1] && (a + b)[|a + b| - 1] == b[|b| - 1];
      FlatParts(registry, space, a, b[..|b| - 1], base);
    }
  }

  /** A child's own leaves join below it where they join below its parent. */
  lemma ChildJoinsApart(
      registry: Registry, child: Tree<ObsLeaf>, view: SpaceView, childView: SpaceView, source: NodePath, seg: PathSeg,
      done: seq<Placed<ObsLeaf>>)
    requires view.Reach([seg]) == Some(childView) && Deep(done, |source.segs|)
    requires var all := done + Leaves(child, Push(source, seg));
             Deep(all, |source.segs|) && Flat(registry, view, all, |source.segs|).Some?
    ensures Flat(registry, view, done, |source.segs|).Some?
    ensures Deep(Leaves(child, Push(source, seg)), |Push(source, seg).segs|)
    ensures Flat(registry, childView, Leaves(child, Push(source, seg)), |Push(source, seg).segs|).Some?
  {
    hide Flat, Leaves;
    var leaves := Leaves(child, Push(source, seg));
    LeavesUnder(child, Push(source, seg));
    FlatBelow(registry, view, childView, source, seg, leaves);
    FlatParts(registry, view, done, leaves, |source.segs|);
  }

  lemma {:induction false} JoinAccepts(registry: Registry, node: Tree<ObsLeaf>, view: SpaceView, source: NodePath)
    requires Fits(node, view) && Deep(Leaves(node, source), |source.segs|)
    requires Flat(registry, view, Leaves(node, source), |source.segs|).Some?
    ensures JoinNode(registry, node, view, source).Ok?
    decreases node, 1
  {
    match node {
      case Leaf(leaf) =>
        var leaves := Leaves(node, source);
        assert leaves == [Placed(leaf, source)];
        assert source.segs[|source.segs|..] == [];
        assert NodeOf(view, leaves[0], |source.segs|) == Some(view);
      case Dict(entries) => EntriesAccept(registry, node, view, source, |entries|);
      case Tuple(items) => ItemsAccept(registry, node, view, source, |items|);
    }
  }

  lemma {:induction false} EntriesAccept(
      registry: Registry, node: Tree<ObsLeaf>, view: SpaceView, source: NodePath, n: nat)
    requires node.Dict? && n <= |node.entries| && Fits(node, view)
    requires Deep(EntryLeaves(node, source, n), |source.segs|)
    requires Flat(registry, view, EntryLeaves(node, source, n), |source.segs|).Some?
    ensures JoinEntries(registry, node, view, source, n).Ok?
    decreases node, 0, n
  {
    hide JoinNode, Leaves, Flat;
    if n > 0 {
      var (key, child) := node.entries[n - 1];
      EntriesUnder(node, source, n - 1);
      ReachChild(view, Key(key));
      ChildJoinsApart(registry, child, view, view.Child(key).value, source, Key(key), EntryLeaves(node, source, n - 1));
      EntriesAccept(registry, node, view, source, n - 1);
      JoinAccepts(registry, child, view.Child(key).value, PushKey(source, key));
    }
  }

  lemma {:induction false} ItemsAccept(
      registry: Registry, node: Tree<ObsLeaf>, view: SpaceView, source: NodePath, n: nat)
    requires node.Tuple? && n <= |node.items| && Fits(node, view)
    requires Deep(ItemLeaves(node, source, n), |source.segs|)
    requires Flat(registry, view, ItemLeaves(node, source, n), |source.segs|).Some?
    ensures JoinItems(registry, node, view, source, n).Ok?
    decreases node, 0, n
  {
    hide JoinNode, Leaves, Flat;
    if n > 0 {
      ItemsUnder(node, source, n - 1);
      ReachChild(view, Index(n - 1));
      ChildJoinsApart(registry, node.items[n - 1], view, view.children[n - 1], source, Index(n - 1), ItemLeaves(node, source, n - 1));
      ItemsAccept(registry, node, view, source, n - 1);
      JoinAccepts(registry, node.items[n - 1], view.children[n - 1], PushIndex(source, n - 1));
    }
  }

  lemma {:induction false} EntriesUnder(node: Tree<ObsLeaf>, source: NodePath, n: nat)
    requires node.Dict? && n <= |node.entries|
    ensures Deep(EntryLeaves(node, source, n), |source.segs|)
  {
    hide Leaves;
    if n > 0 {
      EntriesUnder(node, source, n - 1);
      LeavesUnder(node.entries[n - 1].1, PushKey(source, node.entries[n - 1].0));
    }
  }

  lemma {:induction false} ItemsUnder(node: Tree<ObsLeaf>, source: NodePath, n: nat)
    requires node.Tuple? && n <= |node.items|
    ensures Deep(ItemLeaves(node, source, n), |source.segs|)
  {
    hide Leaves;
    if n > 0 {
      ItemsUnder(node, source, n - 1);
      LeavesUnder(node.items[n - 1], PushIndex(source, n - 1));
    }
  }

  /** A join is accepted exactly when the tree fits the space and every leaf joins the node its path reaches. */
  lemma JoinAcceptedIff(registry: Registry, node: Tree<ObsLeaf>, view: SpaceView, source: NodePath)
    ensures Deep(Leaves(node, source), |source.segs|)
    ensures JoinNode(registry, node, view, source).Ok?
            <==> Fits(node, view) && Flat(registry, view, Leaves(node, source), |source.segs|).Some?
  {
    hide JoinNode, Flat, Fits, Leaves;
    LeavesUnder(node, source);
    if JoinNode(registry, node, view, source).Ok? {
      JoinFits(registry, node, view, source);
      JoinFlattens(registry, node, view, source);
    } else if Fits(node, view) && Flat(registry, view, Leaves(node, source), |source.segs|).Some? {
      JoinAccepts(registry, node, view, source);
    }
  }

  /** The feature is one the leaf joins to at the node its path reaches. */
  ghost predicate JoinedAt(registry: Registry, space: SpaceView, feature: Feature, placed: Placed<ObsLeaf>) {
    && feature.source == placed.path
    && space.Reach(placed.path.segs).Some?
    && JoinLeaf(registry, placed.path, placed.leaf, space.Reach(placed.path.segs).value).Ok?
    && feature in JoinLeaf(registry, placed.path, placed.leaf, space.Reach(placed.path.segs).value).value.features
  }

  /** The record is the leaf's own: its path, role and kind. */
  ghost predicate RecordedAt(u: Unknown, placed: Placed<ObsLeaf>) {
    placed.leaf.UnknownLeaf? && u == Unknown(placed.path, placed.leaf.unknownRole, placed.leaf.kind)
  }

  /** Every feature of a leaf carries the leaf's own path. */
  lemma LeafSources(registry: Registry, source: NodePath, leaf: ObsLeaf, view: SpaceView)
    requires JoinLeaf(registry, source, leaf, view).Ok?
    ensures forall f :: f in JoinLeaf(registry, source, leaf, view).value.features ==> f.source == source
    ensures forall u :: u in JoinLeaf(registry, source, leaf, view).value.unknown ==>
              leaf.UnknownLeaf? && u == Unknown(source, leaf.unknownRole, leaf.kind)
    ensures leaf.UnknownLeaf? ==> Unknown(source, leaf.unknownRole, leaf.kind) in JoinLeaf(registry, source, leaf, view).value.unknown
  {
    hide Split;
    if leaf.SplitLeaf? {
      SplitSources(registry, source, leaf.fields, view);
    }
  }

  lemma SplitSources(registry: Registry, source: NodePath, fields: seq<Field>, view: SpaceView)
    requires Split(registry, source, fields, view).Ok?
    ensures forall f :: f in Split(registry, source, fields, view).value ==> f.source == source
  {
    hide Split, Repeats, Bounds;
    AcceptedSplitTiles(registry, source, fields, view);
  }

  /** A leaf-by-leaf join: the earlier leaves', and the last leaf's at the node it reaches. */
  lemma FlatUnfolds(registry: Registry, space: SpaceView, leaves: seq<Placed<ObsLeaf>>)
    requires leaves != [] && Flat(registry, space, leaves, 0).Some?
    ensures var front, last := leaves[..|leaves| - 1], leaves[|leaves| - 1];
            var node := space.Reach(last.path.segs);
            && Flat(registry, space, front, 0).Some?
            && node.Some? && JoinLeaf(registry, last.path, last.leaf, node.value).Ok?
            && Flat(registry, space, leaves, 0).value
               == Both(Flat(registry, space, front, 0).value, JoinLeaf(registry, last.path, last.leaf, node.value).value)
  {
    hide JoinLeaf;
    assert leaves[|leaves| - 1].path.segs[0..] == leaves[|leaves| - 1].path.segs;
  }

  /** Every leaf reaches its node, joins there, and all it joins to is in the result. */
  lemma {:induction false} FlatHolds(registry: Registry, space: SpaceView, leaves: seq<Placed<ObsLeaf>>, i: nat)
    requires Flat(registry, space, leaves, 0).Some? && i < |leaves|
    ensures space.Reach(leaves[i].path.segs).Some?
    ensures var joined := JoinLeaf(registry, leaves[i].path, leaves[i].leaf, space.Reach(leaves[i].path.segs).value);
            && joined.Ok?
            && (forall f :: f in joined.value.features ==> f in Flat(registry, space, leaves, 0).value.features)
            && (forall u :: u in joined.value.unknown ==> u in Flat(registry, space, leaves, 0).value.unknown)
    decreases |leaves|
  {
    hide JoinLeaf, Flat;
    FlatUnfolds(registry, space, leaves);
    if i < |leaves| - 1 {
      FlatHolds(registry, space, leaves[..|leaves| - 1], i);
    }
  }

  /** Every feature of the result is some leaf's. */
  lemma {:induction false} FeatureComesFrom(registry: Registry, space: SpaceView, leaves: seq<Placed<ObsLeaf>>, f: Feature)
    returns (i: nat)
    requires Flat(registry, space, leaves, 0).Some? && f in Flat(registry, space, leaves, 0).value.features
    ensures i < |leaves| && JoinedAt(registry, space, f, leaves[i])
    decreases |leaves|
  {
    hide JoinLeaf, Flat;
    if leaves == [] {
      NoLeaves(registry, space, 0);
      assert false;
    }
    FlatUnfolds(registry, space, leaves);
    var front, last := leaves[..|leaves| - 1], leaves[|leaves| - 1];
    if f in Flat(registry, space, front, 0).value.features {
      i := FeatureComesFrom(registry, space, front, f);
    } else {
      i := |leaves| - 1;
      LeafSources(registry, last.path, last.leaf, space.Reach(last.path.segs).value);
    }
  }

  /** Every record of the result is some leaf's. */
  lemma {:induction false} UnknownComesFrom(registry: Registry, space: SpaceView, leaves: seq<Placed<ObsLeaf>>, u: Unknown)
    returns (i: nat)
    requires Flat(registry, space, leaves, 0).Some? && u in Flat(registry, space, leaves, 0).value.unknown
    ensures i < |leaves| && RecordedAt(u, leaves[i])
    decreases |leaves|
  {
    hide JoinLeaf, Flat;
    if leaves == [] {
      NoLeaves(registry, space, 0);
      assert false;
    }
    FlatUnfolds(registry, space, leaves);
    var front, last := leaves[..|leaves| - 1], leaves[|leaves| - 1];
    if u in Flat(registry, space, front, 0).value.unknown {
      i := UnknownComesFrom(registry, space, front, u);
    } else {
      i := |leaves| - 1;
      LeafSources(registry, last.path, last.leaf, space.Reach(last.path.segs).value);
    }
  }

  /** What a leaf-by-leaf join holds, and where each part of it comes from. */
  lemma FlatSources(registry: Registry, space: SpaceView, leaves: seq<Placed<ObsLeaf>>)
    requires Flat(registry, space, leaves, 0).Some?
    ensures forall i :: 0 <= i < |leaves| ==>
              && space.Reach(leaves[i].path.segs).Some?
              && JoinLeaf(registry, leaves[i].path, leaves[i].leaf, space.Reach(leaves[i].path.segs).value).Ok?
    ensures forall f :: f in Flat(registry, space, leaves, 0).value.features ==>
              exists i :: 0 <= i < |leaves| && JoinedAt(registry, space, f, leaves[i])
    ensures forall i, f :: 0 <= i < |leaves|
              && f in JoinLeaf(registry, leaves[i].path, leaves[i].leaf, space.Reach(leaves[i].path.segs).value).value.features
              ==> f in Flat(registry, space, leaves, 0).value.features
    ensures forall u :: u in Flat(registry, space, leaves, 0).value.unknown ==>
              exists i :: 0 <= i < |leaves| && RecordedAt(u, leaves[i])
    ensures forall i, u :: 0 <= i < |leaves| && RecordedAt(u, leaves[i]) ==> u in Flat(registry, space, leaves, 0).value.unknown
  {
    hide JoinLeaf, Flat, JoinedAt;
    forall i | 0 <= i < |leaves|
      ensures space.Reach(leaves[i].path.segs).Some?
      ensures var joined := JoinLeaf(registry, leaves[i].path, leaves[i].leaf, space.Reach(leaves[i].path.segs).value);
              && joined.Ok?
              && (forall f :: f in joined.value.features ==> f in Flat(registry, space, leaves, 0).value.features)
      ensures forall u :: RecordedAt(u, leaves[i]) ==> u in Flat(registry, space, leaves, 0).value.unknown
    {
      FlatHolds(registry, space, leaves, i);
      LeafSources(registry, leaves[i].path, leaves[i].leaf, space.Reach(leaves[i].path.segs).value);
    }
    forall f | f in Flat(registry, space, leaves, 0).value.features
      ensures exists i :: 0 <= i < |leaves| && JoinedAt(registry, space, f, leaves[i])
    {
      var i := FeatureComesFrom(registry, space, leaves, f);
    }
    forall u | u in Flat(registry, space, leaves, 0).value.unknown
      ensures exists i :: 0 <= i < |leaves| && RecordedAt(u, leaves[i])
    {
      var i := UnknownComesFrom(registry, space, leaves, u);
    }
  }

  /**
   * Resolving a tag tree is path-sound.  Every joined or unknown feature's source
   * path, followed from the root space, reaches the node its leaf was joined against;
   * every leaf is joined and its features are all there, every leaf of an unknown
   * kind is recorded, and nothing else is; and the leaves' paths
   * are pairwise apart, none a prefix of another.
   */
  lemma JoinIsPathSound(registry: Registry, tags: Tree<ObsLeaf>, space: SpaceView)
    requires DistinctKeys(tags) && JoinNode(registry, tags, space, ROOT).Ok?
    ensures var leaves := Leaves(tags, ROOT);
            var features := JoinNode(registry, tags, space, ROOT).value.features;
            && PrefixFree(leaves)
            && (forall i :: 0 <= i < |leaves| ==>
                  && space.Reach(leaves[i].path.segs).Some?
                  && JoinLeaf(registry, leaves[i].path, leaves[i].leaf, space.Reach(leaves[i].path.segs).value).Ok?)
            && (forall f :: f in features ==>
                  exists i :: 0 <= i < |leaves| && JoinedAt(registry, space, f, leaves[i]))
            && (forall i, f :: 0 <= i < |leaves|
                  && f in JoinLeaf(registry, leaves[i].path, leaves[i].leaf, space.Reach(leaves[i].path.segs).value).value.features
                  ==> f in features)
            && (forall u :: u in JoinNode(registry, tags, space, ROOT).value.unknown ==>
                  exists i :: 0 <= i < |leaves| && RecordedAt(u, leaves[i]))
            && (forall i, u :: 0 <= i < |leaves| && RecordedAt(u, leaves[i]) ==>
                  u in JoinNode(registry, tags, space, ROOT).value.unknown)
  {
    hide JoinNode, JoinLeaf, Leaves, Flat, DistinctKeys, JoinedAt, RecordedAt;
    JoinFlattens(registry, tags, space, ROOT);
    FlatSources(registry, space, Leaves(tags, ROOT));
    LeafPathsApart(tags, ROOT);
  }

  /** The leaf a path leads to in its own tag tree is the leaf listed under it. */
  lemma {:induction false} LeafAtItsPath<L>(node: Tree<L>, path: NodePath, i: nat)
    requires DistinctKeys(node) && i < |Leaves(node, path)|
    ensures path.segs <= Leaves(node, path)[i].path.segs
    ensures Descend(node, Leaves(node, path)[i].path.segs[|path.segs|..]) == Some(Leaf(Leaves(node, path)[i].leaf))
    decreases node, 1
  {
    LeavesUnder(node, path);
    match node {
      case Leaf(_) =>
        assert path.segs[|path.segs|..] == [];
      case Dict(entries) => EntryAtItsPath(node, path, |entries|, i);
      case Tuple(items) => ItemAtItsPath(node, path, |items|, i);
    }
  }

  lemma {:induction false} EntryAtItsPath<L>(node: Tree<L>, path: NodePath, n: nat, i: nat)
    requires node.Dict? && DistinctKeys(node) && n <= |node.entries| && i < |EntryLeaves(node, path, n)|
    ensures path.segs <= EntryLeaves(node, path, n)[i].path.segs
    ensures Descend(node, EntryLeaves(node, path, n)[i].path.segs[|path.segs|..])
            == Some(Leaf(EntryLeaves(node, path, n)[i].leaf))
    decreases node, 0, n
  {
    var before := EntryLeaves(node, path, n - 1);
    if i < |before| {
      EntryAtItsPath(node, path, n - 1, i);
    } else {
      var (key, child) := node.entries[n - 1];
      var k := i - |before|;
      LeafAtItsPath(child, PushKey(path, key), k);
      var leaf := Leaves(child, PushKey(path, key))[k];
      assert EntryLeaves(node, path, n)[i] == leaf;
      StepDown(path, Key(key), leaf.path);
      var at := Find(node.entries, key, 0);
      assert at == Some(n - 1);
    }
  }

  lemma {:induction false} ItemAtItsPath<L>(node: Tree<L>, path: NodePath, n: nat, i: nat)
    requires node.Tuple? && DistinctKeys(node) && n <= |node.items| && i < |ItemLeaves(node, path, n)|
    ensures path.segs <= ItemLeaves(node, path, n)[i].path.segs
    ensures Descend(node, ItemLeaves(node, path, n)[i].path.segs[|path.segs|..])
            == Some(Leaf(ItemLeaves(node, path, n)[i].leaf))
    decreases node, 0, n
  {
    var before := ItemLeaves(node, path, n - 1);
    if i < |before| {
      ItemAtItsPath(node, path, n - 1, i);
    } else {
      var k := i - |before|;
      LeafAtItsPath(node.items[n - 1], PushIndex(path, n - 1), k);
      var leaf := Leaves(node.items[n - 1], PushIndex(path, n - 1))[k];
      assert ItemLeaves(node, path, n)[i] == leaf;
      StepDown(path, Index(n - 1), leaf.path);
    }
  }

  /** Every leaf a tree holds is listed under the path that leads to it. */
  lemma {:induction false} LeafIsListed<L>(node: Tree<L>, path: NodePath, segs: seq<PathSeg>)
    requires Descend(node, segs).Some? && Descend(node, segs).value.Leaf?
    ensures Placed(Descend(node, segs).value.leaf, NodePath(path.segs + segs)) in Leaves(node, path)
    decreases segs
  {
    if segs == [] {
      assert path.segs + segs == path.segs;
    } else {
      var rest := segs[1..];
      assert path.segs + segs == Push(path, segs[0]).segs + rest;
      match (node, segs[0])
      case (Dict(entries), Key(name)) =>
        var at := Find(entries, name, 0).value;
        LeafIsListed(entries[at].1, PushKey(path, name), rest);
        EntryListed(node, path, |entries|, at, Placed(Descend(node, segs).value.leaf, NodePath(path.segs + segs)));
      case (Tuple(items), Index(i)) =>
        LeafIsListed(items[i], PushIndex(path, i), rest);
        ItemListed(node, path, |items|, i, Placed(Descend(node, segs).value.leaf, NodePath(path.segs + segs)));
    }
  }

  lemma {:induction false} EntryListed<L>(node: Tree<L>, path: NodePath, n: nat, i: nat, leaf: Placed<L>)
    requires node.Dict? && i < n <= |node.entries|
    requires leaf in Leaves(node.entries[i].1, PushKey(path, node.entries[i].0))
    ensures leaf in EntryLeaves(node, path, n)
  {
    hide Leaves;
    if i < n - 1 {
      EntryListed(node, path, n - 1, i, leaf);
    }
  }

  lemma {:induction false} ItemListed<L>(node: Tree<L>, path: NodePath, n: nat, i: nat, leaf: Placed<L>)
    requires node.Tuple? && i < n <= |node.items|
    requires leaf in Leaves(node.items[i], PushIndex(path, i))
    ensures leaf in ItemLeaves(node, path, n)
  {
    hide Leaves;
    if i < n - 1 {
      ItemListed(node, path, n - 1, i, leaf);
    }
  }

  lemma StepDown(path: NodePath, seg: PathSeg, p: NodePath)
    requires Push(path, seg).segs <= p.segs
    ensures path.segs <= p.segs
    ensures p.segs[|path.segs|..] == [seg] + p.segs[|path.segs| + 1..]
    ensures p.segs[|path.segs|..][1..] == p.segs[|Push(path, seg).segs|..]
  {
  }
}
