/** Which crates and test suites a change selects (scripts/dev/affected.py). */
module Affected {
  import opened Wrappers
  import opened Sets
  import opened Closures

  /** A workspace package and its directory, as path parts relative to the root. */
  datatype Member = Member(name: string, dir: seq<string>)

  datatype Workspace = Workspace(members: seq<Member>, dependents: map<string, set<string>>)

  // ----- The owner of a path

  datatype Best = Best(depth: nat, name: string)

  /** The running best after the first `n` packages. */
  function BestOf(path: seq<string>, members: seq<Member>, n: nat): Option<Best>
    requires n <= |members|
  {
    if n == 0 then None
    else
      var best := BestOf(path, members, n - 1);
      var m := members[n - 1];
      if m.dir <= path && (best.None? || |m.dir| > best.value.depth) then Some(Best(|m.dir|, m.name)) else best
  }

  function OwnerOf(path: seq<string>, members: seq<Member>): Option<string> {
    var best := BestOf(path, members, |members|);
    if best.None? || best.value.depth == 0 then None else Some(best.value.name)
  }

  method Owner(path: seq<string>, members: seq<Member>) returns (r: Option<string>)
    ensures r == OwnerOf(path, members)
  {
    var best: Option<Best> := None;
    for i := 0 to |members|
      invariant best == BestOf(path, members, i)
    {
      if members[i].dir <= path {
        var depth := |members[i].dir|;
        if best.None? || depth > best.value.depth {
          best := Some(Best(depth, members[i].name));
        }
      }
    }
    return if best.None? || best.value.depth == 0 then None else Some(best.value.name);
  }

  /** `m` is below the root, contains the path, and no package does so more closely. */
  ghost predicate Deepest(path: seq<string>, members: seq<Member>, m: Member) {
    && m in members && m.dir != [] && m.dir <= path
    && forall other :: other in members && other.dir <= path ==> other.dir <= m.dir
  }

  lemma {:induction false} BestIsDeepest(path: seq<string>, members: seq<Member>, n: nat)
    requires n <= |members|
    ensures var best := BestOf(path, members, n);
            && (best.None? <==> forall i :: 0 <= i < n ==> !(members[i].dir <= path))
            && (best.Some? ==>
                  && (exists i :: 0 <= i < n && members[i].dir <= path
                        && members[i] == Member(best.value.name, path[..|members[i].dir|]) && best.value.depth == |members[i].dir|
                        && forall k :: 0 <= k < i && members[k].dir <= path ==> |members[k].dir| < |members[i].dir|)
                  && forall i :: 0 <= i < n && members[i].dir <= path ==> |members[i].dir| <= best.value.depth)
  {
    if n > 0 {
      BestIsDeepest(path, members, n - 1);
    }
  }

  /** The owner is the first listed package with the deepest containing directory, and there is none at the root. */
  lemma OwnerIsDeepest(path: seq<string>, members: seq<Member>)
    ensures OwnerOf(path, members).Some? ==>
              exists i :: 0 <= i < |members| && Deepest(path, members, members[i])
                && members[i].name == OwnerOf(path, members).value
                && forall k :: 0 <= k < i ==> members[k].dir != members[i].dir
    ensures OwnerOf(path, members).None? ==> forall m :: !Deepest(path, members, m)
  {
    BestIsDeepest(path, members, |members|);
    var best := BestOf(path, members, |members|);
    if OwnerOf(path, members).Some? {
      var i :| 0 <= i < |members| && members[i].dir <= path
        && members[i] == Member(best.value.name, path[..|members[i].dir|]) && best.value.depth == |members[i].dir|
        && forall k :: 0 <= k < i && members[k].dir <= path ==> |members[k].dir| < |members[i].dir|;
      assert Deepest(path, members, members[i]);
    }
  }

  /** One directory is the deepest, so with one package to a directory the owner is unique. */
  lemma DeepestIsUnique(path: seq<string>, members: seq<Member>, a: Member, b: Member)
    requires Deepest(path, members, a) && Deepest(path, members, b)
    ensures a.dir == b.dir
  {
  }

  /** The owner does not depend on the order the packages are listed in. */
  lemma OwnerIgnoresOrder(path: seq<string>, a: seq<Member>, b: seq<Member>)
    requires (forall m :: m in a <==> m in b) && forall m, n :: m in a && n in a && m.dir == n.dir ==> m == n
    ensures OwnerOf(path, a) == OwnerOf(path, b)
  {
    OwnerIsDeepest(path, a);
    OwnerIsDeepest(path, b);
    assert forall m :: Deepest(path, a, m) <==> Deepest(path, b, m);
    if OwnerOf(path, a).Some? {
      var m :| Deepest(path, a, m) && m.name == OwnerOf(path, a).value;
      var n :| Deepest(path, b, n) && n.name == OwnerOf(path, b).value;
      DeepestIsUnique(path, a, m, n);
    }
  }

  // ----- The selection

  /** The parts of a slash-separated path; empty and `.` parts are dropped. */
  function Parts(path: string): seq<string> {
    PartsFrom(path, "")
  }

  function PartsFrom(rest: string, part: string): seq<string> {
    var done := if part == "" || part == "." then [] else [part];
    if rest == "" then done
    else if rest[0] == '/' then done + PartsFrom(rest[1..], "")
    else PartsFrom(rest[1..], part + [rest[0]])
  }

  /** The pieces of a text between its slashes, none of which holds a slash. */
  ghost predicate Cuts(path: string, pieces: seq<string>) {
    && pieces != []
    && (forall i :: 0 <= i < |pieces| ==> '/' !in pieces[i])
    && path == Slashed(pieces)
  }

  ghost function Slashed(pieces: seq<string>): string
    requires pieces != []
  {
    if |pieces| == 1 then pieces[0] else pieces[0] + "/" + Slashed(pieces[1..])
  }

  /** The pieces that name something. */
  ghost function Named(pieces: seq<string>): seq<string> {
    if pieces == [] then []
    else (if pieces[0] == "" || pieces[0] == "." then [] else [pieces[0]]) + Named(pieces[1..])
  }

  lemma {:induction false} PartsFromCuts(rest: string, part: string) returns (pieces: seq<string>)
    requires '/' !in part
    ensures Cuts(part + rest, pieces) && PartsFrom(rest, part) == Named(pieces)
    decreases |rest|
  {
    if rest == "" {
      pieces := [part];
      assert pieces[1..] == [] && part + rest == part;
    } else if rest[0] == '/' {
      var later := PartsFromCuts(rest[1..], "");
      assert "" + rest[1..] == rest[1..];
      pieces := [part] + later;
      assert pieces[1..] == later && part + rest == part + "/" + rest[1..];
    } else {
      pieces := PartsFromCuts(rest[1..], part + [rest[0]]);
      assert part + [rest[0]] + rest[1..] == part + rest;
    }
  }

  /** The parts of a path are its pieces between slashes that are neither empty nor `.`, in order. */
  lemma PartsAreThePieces(path: string) returns (pieces: seq<string>)
    ensures Cuts(path, pieces) && Parts(path) == Named(pieces)
  {
    pieces := PartsFromCuts(path, "");
    assert "" + path == path;
  }

  ghost function Owners(changed: seq<string>, members: seq<Member>): set<string> {
    set path | path in changed && OwnerOf(Parts(path), members).Some? :: OwnerOf(Parts(path), members).value
  }

  function Using(dependents: map<string, set<string>>, name: string): set<string> {
    if name in dependents then dependents[name] else {}
  }

  ghost function Everyone(dependents: map<string, set<string>>): set<string> {
    set name, user | name in dependents && user in dependents[name] :: user
  }

  method SetToList(s: set<string>) returns (list: seq<string>)
    ensures forall x :: x in list <==> x in s
  {
    list := [];
    var rest := s;
    while rest != {}
      invariant rest <= s && forall x :: x in list <==> x in s - rest
    {
      var x := Take(rest);
      rest := rest - {x};
      list := list + [x];
    }
  }

  /** What the selection has settled: every selected package not queued has all its users selected. */
  ghost predicate Settled(dependents: map<string, set<string>>, selected: set<string>, queue: seq<string>) {
    && (forall x :: x in queue ==> x in selected)
    && forall x :: x in selected && x !in queue ==> Using(dependents, x) <= selected
  }

  /** Everything selected so far is in every closed set over the seeds. */
  ghost predicate Needed(dependents: map<string, set<string>>, seeds: set<string>, selected: set<string>) {
    forall t :: seeds <= t && Closed(name => Using(dependents, name), t) ==> selected <= t
  }

  /** The worklist over reverse dependencies, on any graph, cyclic or not. */
  method CloseOver(dependents: map<string, set<string>>, seeds: set<string>) returns (selected: set<string>)
    ensures IsClosure(name => Using(dependents, name), seeds, selected)
  {
    selected := seeds;
    var queue := SetToList(selected);
    while queue != []
      invariant seeds <= selected <= seeds + Everyone(dependents)
      invariant Settled(dependents, selected, queue)
      invariant Needed(dependents, seeds, selected)
      decreases seeds + Everyone(dependents) - selected, |queue|
    {
      selected, queue := VisitUsers(dependents, seeds, selected, queue);
    }
  }

  /** One turn: pop the last queued package, select and queue its unselected users. */
  method VisitUsers(dependents: map<string, set<string>>, ghost seeds: set<string>, selected: set<string>, queue: seq<string>)
    returns (selected': set<string>, queue': seq<string>)
    requires queue != [] && Settled(dependents, selected, queue) && Needed(dependents, seeds, selected)
    ensures selected' == selected + Using(dependents, queue[|queue| - 1])
    ensures Settled(dependents, selected', queue') && Needed(dependents, seeds, selected')
    ensures selected' == selected ==> |queue'| < |queue|
  {
    var name := queue[|queue| - 1];
    selected', queue' := selected, queue[..|queue| - 1];
    var rest := Using(dependents, name);
    while rest != {}
      invariant rest <= Using(dependents, name)
      invariant selected' == selected + (Using(dependents, name) - rest)
      invariant forall x :: x in queue' <==> x in queue[..|queue| - 1] || x in selected' - selected
      invariant selected' == selected ==> |queue'| < |queue|
    {
      var user := Take(rest);
      rest := rest - {user};
      if user !in selected' {
        selected' := selected' + {user};
        queue' := queue' + [user];
      }
    }
    assert forall x :: x in queue ==> x in queue[..|queue| - 1] || x == name;
    forall t | seeds <= t && Closed(x => Using(dependents, x), t) ensures selected' <= t {
      assert selected <= t;
      assert name in t;
    }
  }

  // ----- The plan

  datatype Plan = Plan(rust: Option<set<string>>, python: bool, csharp: bool)

  const EXTENSION_PACKAGE := "rlmesh-python"
  const CAPI_PACKAGE := "rlmesh-capi"
  const CSHARP_PLANNER := "scripts/dev/affected.py"

  predicate WorkspaceInput(path: string) {
    || path == "Cargo.toml" || path == "Cargo.lock" || path == "mise.toml" || path == "mise.lock"
    || path == "clippy.toml" || path == ".config/nextest.toml"
  }

  predicate PythonInput(path: string) {
    "python/" <= path || "pyproject.toml" <= path || "uv.lock" <= path
  }

  predicate CsharpInput(path: string) {
    || "csharp/" <= path || "integrations/unity/" <= path || "tools/rlmesh_csharp_surface/" <= path
    || "crates/rlmesh-capi/" <= path || path == CSHARP_PLANNER
  }

  predicate CsharpCiInput(path: string) {
    || path == "pyproject.toml" || path == "uv.lock" || path == ".mise/tasks/release/cxx/package"
    || path == ".github/workflows/ci.yml" || "python/rlmesh/" <= path
  }

  predicate AnyOf(changed: seq<string>, p: string -> bool) {
    exists i :: 0 <= i < |changed| && p(changed[i])
  }

  predicate CsharpDirect(changed: seq<string>, ci: bool, groupChanged: bool) {
    groupChanged || AnyOf(changed, CsharpInput) || (ci && AnyOf(changed, CsharpCiInput))
  }

  /** What the plan for a list of changed files must be. */
  ghost predicate IsPlan(changed: seq<string>, w: Workspace, ci: bool, groupChanged: bool, plan: Plan) {
    var direct := CsharpDirect(changed, ci, groupChanged);
    if AnyOf(changed, WorkspaceInput) then plan == Plan(None, true, direct || ci)
    else
      && plan.rust.Some?
      && IsClosure(name => Using(w.dependents, name), Owners(changed, w.members), plan.rust.value)
      && plan.python == (EXTENSION_PACKAGE in plan.rust.value || AnyOf(changed, PythonInput))
      && plan.csharp == (direct || (ci && CAPI_PACKAGE in plan.rust.value))
  }

  method SelectOwners(changed: seq<string>, members: seq<Member>) returns (selected: set<string>)
    ensures selected == Owners(changed, members)
  {
    selected := {};
    for i := 0 to |changed|
      invariant selected == Owners(changed[..i], members)
    {
      var name := Owner(Parts(changed[i]), members);
      OneMoreOwner(changed, members, i);
      if name.Some? {
        selected := selected + {name.value};
      }
    }
    assert changed[..|changed|] == changed;
  }

  method MakePlan(changed: seq<string>, w: Workspace, ci: bool, groupChanged: bool) returns (plan: Plan)
    ensures IsPlan(changed, w, ci, groupChanged, plan)
  {
    hide Owners, IsClosure, OwnerOf, Parts;
    var csharp := groupChanged || AnyOf(changed, CsharpInput);
    if ci {
      csharp := csharp || AnyOf(changed, CsharpCiInput);
    }
    if AnyOf(changed, WorkspaceInput) {
      return Plan(None, true, csharp || ci);
    }
    var selected := SelectOwners(changed, w.members);
    selected := CloseOver(w.dependents, selected);
    var python := EXTENSION_PACKAGE in selected || AnyOf(changed, PythonInput);
    if ci {
      csharp := csharp || CAPI_PACKAGE in selected;
    }
    return Plan(Some(selected), python, csharp);
  }

  lemma OneMoreOwner(changed: seq<string>, members: seq<Member>, i: nat)
    requires i < |changed|
    ensures var owner := OwnerOf(Parts(changed[i]), members);
            Owners(changed[..i + 1], members)
            == Owners(changed[..i], members) + if owner.Some? then {owner.value} else {}
  {
    assert changed[..i + 1] == changed[..i] + [changed[i]];
  }

  /** Two selections together; the whole workspace absorbs any selection. */
  function Merge(a: Plan, b: Plan): Plan {
    Plan(
      if a.rust.None? || b.rust.None? then None else Some(a.rust.value + b.rust.value),
      a.python || b.python, a.csharp || b.csharp)
  }

  lemma AnyOfBoth(a: seq<string>, b: seq<string>, p: string -> bool)
    ensures AnyOf(a + b, p) <==> AnyOf(a, p) || AnyOf(b, p)
  {
    if i :| 0 <= i < |a| && p(a[i]) {
      assert (a + b)[i] == a[i];
    }
    if i :| 0 <= i < |b| && p(b[i]) {
      assert (a + b)[|a| + i] == b[i];
    }
  }

  lemma OwnersOfBoth(a: seq<string>, b: seq<string>, members: seq<Member>)
    ensures Owners(a + b, members) == Owners(a, members) + Owners(b, members)
  {
  }

  /** The plan of two change lists together is the merge of their plans. */
  lemma PlanOfBoth(
      a: seq<string>, b: seq<string>, w: Workspace, ci: bool, aGroup: bool, bGroup: bool, p: Plan, q: Plan, r: Plan)
    requires IsPlan(a, w, ci, aGroup, p) && IsPlan(b, w, ci, bGroup, q)
    requires IsPlan(a + b, w, ci, aGroup || bGroup, r)
    ensures r == Merge(p, q)
  {
    hide AnyOf, Owners, IsClosure;
    AnyOfBoth(a, b, CsharpInput);
    AnyOfBoth(a, b, CsharpCiInput);
    AnyOfBoth(a, b, WorkspaceInput);
    AnyOfBoth(a, b, PythonInput);
    if r.rust.Some? {
      OwnersOfBoth(a, b, w.members);
      ClosureOfBoth(
        name => Using(w.dependents, name), Owners(a, w.members), Owners(b, w.members),
        p.rust.value, q.rust.value, r.rust.value);
    }
  }

  /** The inputs determine the plan. */
  lemma PlanIsUnique(changed: seq<string>, w: Workspace, ci: bool, groupChanged: bool, p: Plan, q: Plan)
    requires IsPlan(changed, w, ci, groupChanged, p) && IsPlan(changed, w, ci, groupChanged, q)
    ensures p == q
  {
    if p.rust.Some? && q.rust.Some? {
      ClosureIsUnique(name => Using(w.dependents, name), Owners(changed, w.members), p.rust.value, q.rust.value);
    }
  }

  /** A selection holds every changed file's owner and, with a package, all that use it; and nothing that can be left out. */
  lemma SelectionReachesItsUsers(changed: seq<string>, w: Workspace, ci: bool, groupChanged: bool, plan: Plan, t: set<string>)
    requires IsPlan(changed, w, ci, groupChanged, plan) && plan.rust.Some?
    ensures Owners(changed, w.members) <= plan.rust.value
    ensures forall name :: name in plan.rust.value && name in w.dependents ==> w.dependents[name] <= plan.rust.value
    ensures Owners(changed, w.members) <= t && (forall name :: name in t && name in w.dependents ==> w.dependents[name] <= t)
            ==> plan.rust.value <= t
  {
    hide Owners;
    var users := (name: string) => Using(w.dependents, name);
    forall name | name in plan.rust.value && name in w.dependents ensures w.dependents[name] <= plan.rust.value {
      assert users(name) == w.dependents[name];
    }
    if Owners(changed, w.members) <= t && forall name :: name in t && name in w.dependents ==> w.dependents[name] <= t {
      assert Closed(users, t);
    }
  }

  /** What one changed file selects by its name alone. */
  lemma OneFileSelects(path: string, w: Workspace, ci: bool, groupChanged: bool, plan: Plan)
    requires IsPlan([path], w, ci, groupChanged, plan)
    ensures plan.rust.None? <==>
              path in {"Cargo.toml", "Cargo.lock", "mise.toml", "mise.lock", "clippy.toml", ".config/nextest.toml"}
    ensures (plan.rust.None? || "python/" <= path || "pyproject.toml" <= path || "uv.lock" <= path) ==> plan.python
    ensures (|| groupChanged || "csharp/" <= path || "integrations/unity/" <= path || "tools/rlmesh_csharp_surface/" <= path
             || "crates/rlmesh-capi/" <= path || path == "scripts/dev/affected.py") ==> plan.csharp
    ensures (ci && (|| plan.rust.None? || "python/rlmesh/" <= path
                    || path in {"pyproject.toml", "uv.lock", ".mise/tasks/release/cxx/package", ".github/workflows/ci.yml"}))
            ==> plan.csharp
    ensures plan.python ==>
              || plan.rust.None? || "rlmesh-python" in plan.rust.value
              || "python/" <= path || "pyproject.toml" <= path || "uv.lock" <= path
    ensures plan.csharp && !ci ==>
              || groupChanged || "csharp/" <= path || "integrations/unity/" <= path || "tools/rlmesh_csharp_surface/" <= path
              || "crates/rlmesh-capi/" <= path || path == "scripts/dev/affected.py"
  {
    hide IsClosure, Owners;
    OneIsAny(path, WorkspaceInput);
    OneIsAny(path, PythonInput);
    OneIsAny(path, CsharpInput);
    OneIsAny(path, CsharpCiInput);
  }

  lemma OneIsAny(path: string, p: string -> bool)
    ensures AnyOf([path], p) <==> p(path)
  {
    assert [path][0] == path;
  }
}
