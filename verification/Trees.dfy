/**
 * The tag and input trees (a leaf, a Dict of named nodes or a Tuple of nodes)
 * and the walk that flattens one into placed leaves
 * (crates/rlmesh-adapters/src/resolver.rs, `collect_leaves`).
 */
module Trees {
  import opened Wrappers
  import opened Paths

  /** A Dict holds its entries in key order. */
  datatype Tree<+L> =
    | Leaf(leaf: L)
    | Dict(entries: seq<(string, Tree<L>)>)
    | Tuple(items: seq<Tree<L>>)

  /** No Dict anywhere repeats a key: an ordered map cannot. */
  ghost predicate DistinctKeys<L>(node: Tree<L>) {
    match node
    case Leaf(_) => true
    case Dict(entries) =>
      && (forall i, j :: 0 <= i < j < |entries| ==> entries[i].0 != entries[j].0)
      && forall i :: 0 <= i < |entries| ==> DistinctKeys(entries[i].1)
    case Tuple(items) =>
      forall i :: 0 <= i < |items| ==> DistinctKeys(items[i])
  }

  /** One leaf with its position in the tree. */
  datatype Placed<+L> = Placed(leaf: L, path: NodePath)

  ghost function Leaves<L>(node: Tree<L>, path: NodePath): seq<Placed<L>>
    decreases node, 1
  {
    match node
    case Leaf(leaf) => [Placed(leaf, path)]
    case Dict(_) => EntryLeaves(node, path, |node.entries|)
    case Tuple(_) => ItemLeaves(node, path, |node.items|)
  }

  /** The leaves under the first `n` entries of a Dict. */
  ghost function EntryLeaves<L>(node: Tree<L>, path: NodePath, n: nat): seq<Placed<L>>
    requires node.Dict? && n <= |node.entries|
    decreases node, 0, n
  {
    if n == 0 then []
    else
      EntryLeaves(node, path, n - 1)
      + Leaves(node.entries[n - 1].1, PushKey(path, node.entries[n - 1].0))
  }

  /** The leaves under the first `n` items of a Tuple. */
  ghost function ItemLeaves<L>(node: Tree<L>, path: NodePath, n: nat): seq<Placed<L>>
    requires node.Tuple? && n <= |node.items|
    decreases node, 0, n
  {
    if n == 0 then []
    else
      ItemLeaves(node, path, n - 1)
      + Leaves(node.items[n - 1], PushIndex(path, n - 1))
  }

  /** The list the walk appends to. */
  class LeafSink<L> {
    var out: seq<Placed<L>>

    constructor ()
      ensures out == []
    {
      out := [];
    }
  }

  method CollectLeaves<L>(node: Tree<L>, path: NodePath, sink: LeafSink<L>)
    modifies sink
    ensures sink.out == old(sink.out) + Leaves(node, path)
    decreases node
  {
    match node {
      case Leaf(leaf) =>
        sink.out := sink.out + [Placed(leaf, path)];
      case Dict(entries) =>
        for i := 0 to |entries|
          invariant sink.out == old(sink.out) + EntryLeaves(node, path, i)
        {
          CollectLeaves(entries[i].1, PushKey(path, entries[i].0), sink);
        }
      case Tuple(items) =>
        for i := 0 to |items|
          invariant sink.out == old(sink.out) + ItemLeaves(node, path, i)
        {
          CollectLeaves(items[i], PushIndex(path, i), sink);
        }
    }
  }

  /** Follow a path down a tree. */
  function Descend<L>(node: Tree<L>, path: seq<PathSeg>): Option<Tree<L>>
    decreases path
  {
    if path == [] then Some(node)
    else
      match (node, path[0])
      case (Dict(entries), Key(name)) =>
        var at := Find(entries, name, 0);
        if at.Some? then Descend(entries[at.value].1, path[1..]) else None
      case (Tuple(items), Index(i)) =>
        if i < |items| then Descend(items[i], path[1..]) else None
      case _ => None
  }

  function Find<L>(entries: seq<(string, Tree<L>)>, name: string, from: nat): (at: Option<nat>)
    requires from <= |entries|
    ensures at.Some? ==> from <= at.value < |entries| && entries[at.value].0 == name
    ensures at.Some? ==> forall i :: from <= i < at.value ==> entries[i].0 != name
    ensures at.None? ==> forall i :: from <= i < |entries| ==> entries[i].0 != name
    decreases |entries| - from
  {
    if from == |entries| then None
    else if entries[from].0 == name then Some(from)
    else Find(entries, name, from + 1)
  }

  ghost predicate PrefixFree<L>(leaves: seq<Placed<L>>) {
    forall i, j :: 0 <= i < j < |leaves| ==> Apart(leaves[i].path, leaves[j].path)
  }

  ghost predicate AllUnder<L>(leaves: seq<Placed<L>>, path: NodePath) {
    forall i :: 0 <= i < |leaves| ==> path.segs <= leaves[i].path.segs
  }

  lemma {:induction false} LeavesUnder<L>(node: Tree<L>, path: NodePath)
    ensures AllUnder(Leaves(node, path), path)
    decreases node, 1
  {
    match node {
      case Leaf(_) =>
      case Dict(entries) =>
        var n := 0;
        while n < |entries|
          invariant n <= |entries|
          invariant AllUnder(EntryLeaves(node, path, n), path)
        {
          LeavesUnder(entries[n].1, PushKey(path, entries[n].0));
          n := n + 1;
        }
      case Tuple(items) =>
        var n := 0;
        while n < |items|
          invariant n <= |items|
          invariant AllUnder(ItemLeaves(node, path, n), path)
        {
          LeavesUnder(items[n], PushIndex(path, n));
          n := n + 1;
        }
    }
  }

  /** Every leaf of the listing has its segment just below `path` drawn from `segs`. */
  ghost predicate Below<L>(leaves: seq<Placed<L>>, path: NodePath, segs: set<PathSeg>) {
    forall i :: 0 <= i < |leaves| ==>
      |path.segs| < |leaves[i].path.segs| && path.segs <= leaves[i].path.segs && leaves[i].path.segs[|path.segs|] in segs
  }

  lemma AppendSibling<L>(done: seq<Placed<L>>, next: seq<Placed<L>>, path: NodePath, segs: set<PathSeg>, seg: PathSeg)
    requires PrefixFree(done) && Below(done, path, segs) && seg !in segs
    requires PrefixFree(next) && AllUnder(next, Push(path, seg))
    ensures PrefixFree(done + next) && Below(done + next, path, segs + {seg})
  {
    forall i | 0 <= i < |next| ensures next[i].path.segs[|path.segs|] == seg && path.segs <= next[i].path.segs {
      assert Push(path, seg).segs <= next[i].path.segs;
    }
    forall i, j | 0 <= i < |done| && 0 <= j < |next| ensures Apart(done[i].path, next[j].path) {
      assert done[i].path.segs[|path.segs|] != next[j].path.segs[|path.segs|];
    }
  }

  /**
   * The paths of the leaves of one tree are pairwise distinct and none is a
   * prefix of another, so state keyed by path never mixes two leaves.
   */
  lemma {:induction false} LeafPathsApart<L>(node: Tree<L>, path: NodePath)
    requires DistinctKeys(node)
    ensures PrefixFree(Leaves(node, path))
    decreases node
  {
    match node {
      case Leaf(_) =>
      case Dict(entries) =>
        var n := 0;
        var segs: set<PathSeg> := {};
        while n < |entries|
          invariant n <= |entries|
          invariant segs == set i | 0 <= i < n :: Key(entries[i].0)
          invariant PrefixFree(EntryLeaves(node, path, n)) && Below(EntryLeaves(node, path, n), path, segs)
        {
          var seg := Key(entries[n].0);
          LeafPathsApart(entries[n].1, Push(path, seg));
          LeavesUnder(entries[n].1, Push(path, seg));
          AppendSibling(EntryLeaves(node, path, n), Leaves(entries[n].1, Push(path, seg)), path, segs, seg);
          segs := segs + {seg};
          n := n + 1;
        }
      case Tuple(items) =>
        var n := 0;
        var segs: set<PathSeg> := {};
        while n < |items|
          invariant n <= |items|
          invariant segs == set i | 0 <= i < n :: Index(i)
          invariant PrefixFree(ItemLeaves(node, path, n)) && Below(ItemLeaves(node, path, n), path, segs)
        {
          var seg := Index(n);
          LeafPathsApart(items[n], Push(path, seg));
          LeavesUnder(items[n], Push(path, seg));
          AppendSibling(ItemLeaves(node, path, n), Leaves(items[n], Push(path, seg)), path, segs, seg);
          segs := segs + {seg};
          n := n + 1;
        }
    }
  }
}
