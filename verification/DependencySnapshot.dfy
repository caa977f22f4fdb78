/** The C# dependency snapshot of a lock file (scripts/dev/affected.py). */
module DependencySnapshot {
  import opened Sets
  import opened Closures
  import opened DependencyGroups

  const CSHARP := "csharp"

  /** A dependency entry; `rest` is whatever else it carries (a marker, a version). */
  datatype Dep = Dep(name: string, extra: seq<string>, rest: string)

  datatype Key = Key(name: string, extras: set<string>)

  /** A locked package; `fields` is every other field a record keeps, `dropped` those it does not. */
  datatype Package = Package(
    name: string, isRoot: bool, fields: string, dropped: string,
    dependencies: seq<Dep>, optional: map<string, seq<Dep>>, csharpGroup: seq<Dep>)

  datatype Record = Record(
    name: string, isRoot: bool, fields: string, dependencies: seq<Dep>, optional: map<string, seq<Dep>>)

  datatype Snapshot = Snapshot(roots: seq<Dep>, selected: map<Key, seq<Record>>)

  function KeyOf(d: Dep): Key {
    Key(d.name, set e | e in d.extra)
  }

  function KeysOf(deps: seq<Dep>): set<Key> {
    set d | d in deps :: KeyOf(d)
  }

  /** The C# group of every virtual root package, in file order. */
  function Roots(packages: seq<Package>): seq<Dep> {
    if packages == [] then []
    else
      var p := packages[|packages| - 1];
      Roots(packages[..|packages| - 1]) + if p.isRoot then p.csharpGroup else []
  }

  /** A package under some extras: unused extras, dev groups and metadata are gone. */
  function RecordOf(p: Package, extras: set<string>): Record {
    Record(p.name, p.isRoot, p.fields, p.dependencies, map e | e in extras && e in p.optional :: p.optional[e])
  }

  function RecordsOf(packages: seq<Package>, key: Key): seq<Record> {
    if packages == [] then []
    else
      var p := packages[|packages| - 1];
      RecordsOf(packages[..|packages| - 1], key) + if p.name == key.name then [RecordOf(p, key.extras)] else []
  }

  /** The keys a record depends on, through its own dependencies and its kept extras. */
  function Needs(r: Record): set<Key> {
    KeysOf(r.dependencies) + set e, d | e in r.optional && d in r.optional[e] :: KeyOf(d)
  }

  function Reach(records: seq<Record>): set<Key> {
    set i, k | 0 <= i < |records| && k in Needs(records[i]) :: k
  }

  ghost function Next(packages: seq<Package>): Key -> set<Key> {
    k => Reach(RecordsOf(packages, k))
  }

  /** The selection is the closure of the roots, each key with its records. */
  ghost predicate IsSnapshot(packages: seq<Package>, s: Snapshot) {
    && s.roots == Roots(packages)
    && IsClosure(Next(packages), KeysOf(s.roots), s.selected.Keys)
    && forall k :: k in s.selected ==> s.selected[k] == RecordsOf(packages, k)
  }

  /** Some package of the key's name depends on `d`, by itself or through an extra the key asks for. */
  ghost predicate Asks(p: Package, key: Key, d: Dep) {
    p.name == key.name && (d in p.dependencies || exists e :: e in key.extras && e in p.optional && d in p.optional[e])
  }

  lemma {:induction false} RecordsAreOfItsName(packages: seq<Package>, key: Key, r: Record)
    ensures r in RecordsOf(packages, key) <==> exists p :: p in packages && p.name == key.name && r == RecordOf(p, key.extras)
  {
    hide RecordOf;
    if packages != [] {
      RecordsAreOfItsName(packages[..|packages| - 1], key, r);
      assert packages == packages[..|packages| - 1] + [packages[|packages| - 1]];
    }
  }

  lemma NeedsIff(p: Package, key: Key, to: Key)
    requires p.name == key.name
    ensures to in Needs(RecordOf(p, key.extras)) <==>
              exists d :: Asks(p, key, d) && to.name == d.name && forall e :: e in to.extras <==> e in d.extra
  {
    var r := RecordOf(p, key.extras);
    if d :| Asks(p, key, d) && to.name == d.name && forall e :: e in to.extras <==> e in d.extra {
      assert to == KeyOf(d);
      if d !in p.dependencies {
        var e :| e in key.extras && e in p.optional && d in p.optional[e];
        assert e in r.optional && d in r.optional[e];
      }
    }
    if to in Needs(r) {
      if to in KeysOf(r.dependencies) {
        var d :| d in r.dependencies && to == KeyOf(d);
        assert Asks(p, key, d);
      } else {
        var e, d :| e in r.optional && d in r.optional[e] && to == KeyOf(d);
        assert Asks(p, key, d);
      }
    }
  }

  /** A key leads to another exactly when some package of its name asks for that one, with those extras. */
  lemma LeadsToIff(packages: seq<Package>, key: Key, to: Key)
    ensures to in Next(packages)(key) <==>
              exists p, d :: p in packages && Asks(p, key, d) && to.name == d.name && forall e :: e in to.extras <==> e in d.extra
  {
    hide RecordsOf, RecordOf, Needs, KeysOf;
    var records := RecordsOf(packages, key);
    if to in Next(packages)(key) {
      var i :| 0 <= i < |records| && to in Needs(records[i]);
      RecordsAreOfItsName(packages, key, records[i]);
      var p :| p in packages && p.name == key.name && records[i] == RecordOf(p, key.extras);
      NeedsIff(p, key, to);
    }
    if p, d :| p in packages && Asks(p, key, d) && to.name == d.name && forall e :: e in to.extras <==> e in d.extra {
      NeedsIff(p, key, to);
      RecordsAreOfItsName(packages, key, RecordOf(p, key.extras));
      var i :| 0 <= i < |records| && records[i] == RecordOf(p, key.extras);
    }
  }

  /** The roots are what the C# groups of the virtual packages list. */
  lemma {:induction false} RootsIff(packages: seq<Package>, d: Dep)
    ensures d in Roots(packages) <==> exists p :: p in packages && p.isRoot && d in p.csharpGroup
  {
    if packages != [] {
      RootsIff(packages[..|packages| - 1], d);
      assert packages == packages[..|packages| - 1] + [packages[|packages| - 1]];
    }
  }

  /** A record shows a package's own fields, its dependencies and the extras asked for, and nothing else. */
  lemma RecordShowsIff(p: Package, q: Package, extras: set<string>)
    ensures RecordOf(p, extras) == RecordOf(q, extras) <==>
              && p.name == q.name && p.isRoot == q.isRoot && p.fields == q.fields && p.dependencies == q.dependencies
              && forall e :: e in extras ==>
                   (e in p.optional <==> e in q.optional) && (e in p.optional ==> p.optional[e] == q.optional[e])
  {
    var r, s := RecordOf(p, extras), RecordOf(q, extras);
    if r == s {
      forall e | e in extras
        ensures (e in p.optional <==> e in q.optional) && (e in p.optional ==> p.optional[e] == q.optional[e])
      {
        assert e in r.optional <==> e in s.optional;
      }
    }
  }

  // ----- The worklist

  method CollectRoots(packages: seq<Package>) returns (roots: seq<Dep>)
    ensures roots == Roots(packages)
  {
    roots := [];
    for i := 0 to |packages|
      invariant roots == Roots(packages[..i])
    {
      assert packages[..i + 1][..i] == packages[..i];
      if packages[i].isRoot {
        roots := roots + packages[i].csharpGroup;
      }
    }
    assert packages[..|packages|] == packages;
  }

  lemma KeysOfBoth(a: seq<Dep>, b: seq<Dep>)
    ensures KeysOf(a + b) == KeysOf(a) + KeysOf(b)
  {
  }

  lemma ReachOneMore(records: seq<Record>, r: Record)
    ensures Reach(records + [r]) == Reach(records) + Needs(r)
  {
    var all := records + [r];
    assert forall i :: 0 <= i < |records| ==> all[i] == records[i];
    assert all[|records|] == r;
  }

  /** The keys a package needs for some of its extras. */
  ghost function ExtraKeys(p: Package, extras: set<string>): set<Key> {
    var kept := RecordOf(p, extras).optional;
    set e, d | e in kept && d in kept[e] :: KeyOf(d)
  }

  lemma NoExtras(p: Package)
    ensures ExtraKeys(p, {}) == {}
  {
  }

  lemma OneMoreExtra(p: Package, extras: set<string>, e: string)
    ensures ExtraKeys(p, extras + {e}) == ExtraKeys(p, extras) + if e in p.optional then KeysOf(p.optional[e]) else {}
  {
    var kept := RecordOf(p, extras + {e}).optional;
    assert e in kept <==> e in p.optional;
    assert e in p.optional ==> kept[e] == p.optional[e];
    assert forall f :: f in RecordOf(p, extras).optional ==> f in kept && kept[f] == RecordOf(p, extras).optional[f];
  }

  /** Queue a package's dependencies and those of its wanted extras. */
  method Enqueue(p: Package, extras: set<string>, queue: seq<Dep>) returns (queue': seq<Dep>)
    ensures KeysOf(queue') == KeysOf(queue) + Needs(RecordOf(p, extras))
  {
    hide KeysOf;
    queue' := queue + p.dependencies;
    KeysOfBoth(queue, p.dependencies);
    var rest := extras;
    NoExtras(p);
    while rest != {}
      invariant rest <= extras
      invariant KeysOf(queue') == KeysOf(queue) + KeysOf(p.dependencies) + ExtraKeys(p, extras - rest)
    {
      var e := Take(rest);
      OneMoreExtra(p, extras - rest, e);
      assert extras - (rest - {e}) == extras - rest + {e};
      rest := rest - {e};
      if e in p.optional {
        KeysOfBoth(queue', p.optional[e]);
        queue' := queue' + p.optional[e];
      }
    }
    assert extras - rest == extras;
  }

  method Visit(packages: seq<Package>, key: Key, queue: seq<Dep>) returns (records: seq<Record>, queue': seq<Dep>)
    ensures records == RecordsOf(packages, key)
    ensures KeysOf(queue') == KeysOf(queue) + Reach(records)
  {
    records, queue' := [], queue;
    for i := 0 to |packages|
      invariant records == RecordsOf(packages[..i], key)
      invariant KeysOf(queue') == KeysOf(queue) + Reach(records)
    {
      assert packages[..i + 1][..i] == packages[..i];
      if packages[i].name == key.name {
        var record := RecordOf(packages[i], key.extras);
        ReachOneMore(records, record);
        records := records + [record];
        queue' := Enqueue(packages[i], key.extras, queue');
      }
    }
    assert packages[..|packages|] == packages;
  }

  /** Every key a lock file mentions. */
  ghost function MentionedKeys(packages: seq<Package>): set<Key> {
    if packages == [] then {}
    else
      var p := packages[|packages| - 1];
      MentionedKeys(packages[..|packages| - 1]) + KeysOf(p.csharpGroup) + KeysOf(p.dependencies)
      + set e, d | e in p.optional && d in p.optional[e] :: KeyOf(d)
  }

  lemma {:induction false} NextIsMentionedKeys(packages: seq<Package>, key: Key)
    ensures Reach(RecordsOf(packages, key)) <= MentionedKeys(packages)
    ensures Next(packages)(key) == Reach(RecordsOf(packages, key))
  {
    if packages != [] {
      var p := packages[|packages| - 1];
      NextIsMentionedKeys(packages[..|packages| - 1], key);
      if p.name == key.name {
        ReachOneMore(RecordsOf(packages[..|packages| - 1], key), RecordOf(p, key.extras));
      }
    }
  }

  lemma {:induction false} RootsAreMentionedKeys(packages: seq<Package>)
    ensures KeysOf(Roots(packages)) <= MentionedKeys(packages)
  {
    if packages != [] {
      RootsAreMentionedKeys(packages[..|packages| - 1]);
      var p := packages[|packages| - 1];
      KeysOfBoth(Roots(packages[..|packages| - 1]), if p.isRoot then p.csharpGroup else []);
    }
  }

  /** What the worklist has settled: selected keys have their records, and what they need is selected or queued. */
  ghost predicate Settled(packages: seq<Package>, selected: map<Key, seq<Record>>, pending: set<Key>) {
    && (forall k :: k in selected ==> selected[k] == RecordsOf(packages, k))
    && (forall k :: k in selected ==> Next(packages)(k) <= selected.Keys + pending)
    && KeysOf(Roots(packages)) <= selected.Keys + pending
    && forall t :: KeysOf(Roots(packages)) <= t && Closed(Next(packages), t) ==> selected.Keys + pending <= t
  }

  lemma Selecting(packages: seq<Package>, selected: map<Key, seq<Record>>, pending: set<Key>, rest: set<Key>, key: Key)
    requires Settled(packages, selected, pending) && pending == rest + {key}
    ensures Settled(packages, selected[key := RecordsOf(packages, key)], rest + Next(packages)(key))
  {
    hide RecordsOf, Reach, Roots, KeysOf;
    var next := selected[key := RecordsOf(packages, key)];
    assert next.Keys == selected.Keys + {key};
  }

  /** The dependency closure of the C# group, on any lock file, cyclic or not. */
  method TakeSnapshot(packages: seq<Package>) returns (s: Snapshot)
    ensures IsSnapshot(packages, s)
  {
    hide Settled, Reach, RecordsOf, MentionedKeys, Roots, KeysOf, KeyOf, IsSnapshot, Next;
    var roots := CollectRoots(packages);
    var queue := roots;
    var selected: map<Key, seq<Record>> := map[];
    StartsSettled(packages);
    RootsAreMentionedKeys(packages);
    while queue != []
      invariant Settled(packages, selected, KeysOf(queue))
      invariant selected.Keys + KeysOf(queue) <= MentionedKeys(packages)
      decreases MentionedKeys(packages) - selected.Keys, |queue|
    {
      var d, key := queue[|queue| - 1], KeyOf(queue[|queue| - 1]);
      ghost var pending := KeysOf(queue);
      assert queue == queue[..|queue| - 1] + [d];
      queue := queue[..|queue| - 1];
      PoppedKeys(queue, d);
      if key !in selected {
        Selecting(packages, selected, pending, KeysOf(queue), key);
        NextIsMentionedKeys(packages, key);
        ghost var seen := selected.Keys;
        var records;
        records, queue := Visit(packages, key, queue);
        selected := selected[key := records];
        assert selected.Keys == seen + {key} && key in MentionedKeys(packages);
      } else {
        AlreadySelected(packages, selected, pending, KeysOf(queue), key);
      }
    }
    NoKeys();
    FinallySettled(packages, selected);
    return Snapshot(roots, selected);
  }

  /** The whole snapshot: the included groups, the roots and the reached records. */
  method CsharpSnapshot(groups: Groups, packages: seq<Package>) returns (inputs: Groups, s: Snapshot)
    ensures IsGroupInputs(groups, CSHARP, inputs) && IsSnapshot(packages, s)
  {
    inputs := CollectInputs(groups, CSHARP);
    s := TakeSnapshot(packages);
  }

  lemma NoKeys()
    ensures KeysOf([]) == {}
  {
  }

  lemma PoppedKeys(queue: seq<Dep>, d: Dep)
    ensures KeysOf(queue + [d]) == KeysOf(queue) + {KeyOf(d)}
  {
  }

  lemma StartsSettled(packages: seq<Package>)
    ensures Settled(packages, map[], KeysOf(Roots(packages)))
  {
  }

  lemma AlreadySelected(packages: seq<Package>, selected: map<Key, seq<Record>>, pending: set<Key>, rest: set<Key>, key: Key)
    requires Settled(packages, selected, pending) && pending == rest + {key} && key in selected
    ensures Settled(packages, selected, rest)
  {
    assert selected.Keys + pending == selected.Keys + rest;
  }

  lemma FinallySettled(packages: seq<Package>, selected: map<Key, seq<Record>>)
    requires Settled(packages, selected, {})
    ensures IsSnapshot(packages, Snapshot(Roots(packages), selected))
  {
    assert selected.Keys + {} == selected.Keys;
  }

  // ----- What the snapshot depends on

  lemma SnapshotIsUnique(packages: seq<Package>, s: Snapshot, t: Snapshot)
    requires IsSnapshot(packages, s) && IsSnapshot(packages, t)
    ensures s == t
  {
    ClosureIsUnique(Next(packages), KeysOf(s.roots), s.selected.Keys, t.selected.Keys);
    assert s.selected == t.selected;
  }

  lemma SnapshotRoots(packages: seq<Package>, s: Snapshot)
    requires IsSnapshot(packages, s)
    ensures s.roots == Roots(packages)
  {
  }

  /** A lock file leaves the snapshot unchanged exactly when its roots and every reached record are unchanged. */
  lemma SnapshotChangesIff(before: seq<Package>, after: seq<Package>, s: Snapshot)
    requires IsSnapshot(before, s)
    ensures IsSnapshot(after, s) <==>
              Roots(after) == s.roots && forall k :: k in s.selected ==> RecordsOf(after, k) == RecordsOf(before, k)
  {
    hide RecordsOf, Reach;
    if Roots(after) == s.roots && forall k :: k in s.selected ==> RecordsOf(after, k) == RecordsOf(before, k) {
      assert forall k :: k in s.selected.Keys ==> Next(after)(k) == Next(before)(k);
      ClosureIsLocal(Next(before), Next(after), KeysOf(s.roots), s.selected.Keys);
    }
  }

  /**
   * What the C# group comes to as a whole, its included groups and its resolved
   * dependencies: it changes exactly when a group it reaches, a root or a record
   * it reaches changes.
   */
  lemma WholeSnapshotChangesIff(
      groups: Groups, groups': Groups, packages: seq<Package>, packages': seq<Package>,
      inputs: Groups, inputs': Groups, s: Snapshot, s': Snapshot)
    requires IsGroupInputs(groups, CSHARP, inputs) && IsSnapshot(packages, s)
    requires IsGroupInputs(groups', CSHARP, inputs') && IsSnapshot(packages', s')
    ensures (inputs, s) == (inputs', s') <==>
              && (forall name :: name in inputs ==> Inputs(groups', name) == Inputs(groups, name))
              && Roots(packages') == s.roots
              && forall k :: k in s.selected ==> RecordsOf(packages', k) == RecordsOf(packages, k)
  {
    hide IsSnapshot, RecordsOf, Roots, IsGroupInputs;
    InputsChangeIff(groups, groups', CSHARP, inputs, inputs');
    SnapshotChangesIff(packages, packages', s);
    if IsSnapshot(packages', s) {
      SnapshotIsUnique(packages', s, s');
    }
  }

  lemma {:induction false} RecordsAppend(a: seq<Package>, b: seq<Package>, key: Key)
    ensures RecordsOf(a + b, key) == RecordsOf(a, key) + RecordsOf(b, key)
  {
    if b == [] {
      assert a + b == a;
    } else {
      assert (a + b)[..|a + b| - 1] == a + b[..|b| - 1];
      RecordsAppend(a, b[..|b| - 1], key);
    }
  }

  lemma {:induction false} RootsAppend(a: seq<Package>, b: seq<Package>)
    ensures Roots(a + b) == Roots(a) + Roots(b)
  {
    if b == [] {
      assert a + b == a;
    } else {
      assert (a + b)[..|a + b| - 1] == a + b[..|b| - 1];
      RootsAppend(a, b[..|b| - 1]);
    }
  }

  lemma RecordsAround(before: seq<Package>, p: Package, after: seq<Package>, key: Key)
    ensures RecordsOf(before + [p] + after, key)
            == RecordsOf(before, key) + (if p.name == key.name then [RecordOf(p, key.extras)] else []) + RecordsOf(after, key)
  {
    RecordsAppend(before + [p], after, key);
    assert (before + [p])[..|before|] == before;
  }

  lemma RootsAround(before: seq<Package>, p: Package, after: seq<Package>)
    ensures Roots(before + [p] + after) == Roots(before) + (if p.isRoot then p.csharpGroup else []) + Roots(after)
  {
    RootsAppend(before + [p], after);
    assert (before + [p])[..|before|] == before;
  }

  /** A package whose name is not reached can be added or removed anywhere. */
  lemma UnreachedPackageIsInvisible(before: seq<Package>, p: Package, after: seq<Package>, s: Snapshot)
    requires IsSnapshot(before + after, s)
    requires (p.isRoot ==> p.csharpGroup == []) && forall k :: k in s.selected ==> k.name != p.name
    ensures IsSnapshot(before + [p] + after, s)
  {
    hide RecordsOf, Roots, IsSnapshot;
    forall k | k in s.selected ensures RecordsOf(before + [p] + after, k) == RecordsOf(before + after, k) {
      RecordsAround(before, p, after, k);
      RecordsAppend(before, after, k);
    }
    RootsAround(before, p, after);
    RootsAppend(before, after);
    SnapshotRoots(before + after, s);
    SnapshotChangesIff(before + after, before + [p] + after, s);
  }

  /** The fields a record drops, and the extras no reached key asks for, can change freely. */
  lemma UnreachedExtrasAreInvisible(before: seq<Package>, p: Package, q: Package, after: seq<Package>, s: Snapshot)
    requires IsSnapshot(before + [p] + after, s)
    requires p.(dropped := q.dropped, optional := q.optional, csharpGroup := q.csharpGroup) == q
    requires p.isRoot ==> p.csharpGroup == q.csharpGroup
    requires forall k, e :: k in s.selected && k.name == p.name && e in k.extras ==>
                              (e in p.optional <==> e in q.optional) && (e in p.optional ==> p.optional[e] == q.optional[e])
    ensures IsSnapshot(before + [q] + after, s)
  {
    hide RecordsOf, Roots, IsSnapshot;
    forall k | k in s.selected ensures RecordsOf(before + [q] + after, k) == RecordsOf(before + [p] + after, k) {
      RecordsAround(before, p, after, k);
      RecordsAround(before, q, after, k);
      assert k.name == p.name ==> RecordOf(p, k.extras).optional == RecordOf(q, k.extras).optional;
    }
    RootsAround(before, p, after);
    RootsAround(before, q, after);
    SnapshotRoots(before + [p] + after, s);
    SnapshotChangesIff(before + [p] + after, before + [q] + after, s);
  }
}
