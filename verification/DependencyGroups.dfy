/** The dependency groups the C# group includes (scripts/dev/affected.py, `include_group`). */
module DependencyGroups {
  import opened Closures

  datatype Entry = Include(group: string) | Requirement(text: string)

  type Groups = map<string, seq<Entry>>

  /** A group's entries; an undeclared group has none. */
  function Inputs(groups: Groups, name: string): seq<Entry> {
    if name in groups then groups[name] else []
  }

  function IncludesOf(entries: seq<Entry>): set<string> {
    set i | 0 <= i < |entries| && entries[i].Include? :: entries[i].group
  }

  ghost function Includes(groups: Groups): string -> set<string> {
    name => IncludesOf(Inputs(groups, name))
  }

  /** A group leads to exactly those its own entries include. */
  lemma IncludesIff(groups: Groups, name: string, other: string)
    ensures other in Includes(groups)(name) <==> name in groups && Include(other) in groups[name]
  {
    if name in groups && Include(other) in groups[name] {
      var i :| 0 <= i < |groups[name]| && groups[name][i] == Include(other);
      assert groups[name][i].Include?;
    }
  }

  /** Exactly the groups reached by includes, each with its entries. */
  ghost predicate IsGroupInputs(groups: Groups, root: string, inputs: Groups) {
    && IsClosure(Includes(groups), {root}, inputs.Keys)
    && Copies(groups, inputs)
  }

  ghost predicate Copies(groups: Groups, inputs: Groups) {
    forall name :: name in inputs ==> inputs[name] == Inputs(groups, name)
  }

  /** Every group some group includes. */
  ghost function Mentioned(groups: Groups): set<string> {
    set name, other | name in groups && other in IncludesOf(groups[name]) :: other
  }

  lemma MentionedIsClosed(groups: Groups, root: string)
    ensures Closed(Includes(groups), {root} + Mentioned(groups))
  {
    forall x ensures Includes(groups)(x) <= Mentioned(groups) {
    }
  }

  /** Every group newly entered has all it includes entered too. */
  ghost predicate NewOnesClosed(groups: Groups, before: set<string>, after: set<string>) {
    forall x :: x in after && x !in before ==> Includes(groups)(x) <= after
  }

  /** Nothing is entered that the group does not lead to. */
  ghost predicate OnlyReached(groups: Groups, name: string, before: set<string>, after: set<string>) {
    forall t :: name in t && Closed(Includes(groups), t) ==> after <= before + t
  }

  /** The recursive walk with its table of groups entered so far, on any groups, cyclic or not. */
  method IncludeGroup(groups: Groups, name: string, inputs: Groups, ghost all: set<string>) returns (inputs': Groups)
    requires Copies(groups, inputs) && name in all && Closed(Includes(groups), all)
    ensures Copies(groups, inputs') && inputs.Keys + {name} <= inputs'.Keys
    ensures NewOnesClosed(groups, inputs.Keys, inputs'.Keys) && OnlyReached(groups, name, inputs.Keys, inputs'.Keys)
    decreases all - inputs.Keys
  {
    hide NewOnesClosed, OnlyReached, IncludesOf;
    Entering(groups, name, inputs.Keys);
    if name in inputs {
      assert inputs.Keys + {name} == inputs.Keys;
      return inputs;
    }
    var entries := Inputs(groups, name);
    inputs' := inputs[name := entries];
    assert inputs'.Keys == inputs.Keys + {name};
    NoIncludes();
    for i := 0 to |entries|
      invariant Copies(groups, inputs') && inputs.Keys + {name} <= inputs'.Keys
      invariant NewOnesClosed(groups, inputs.Keys + {name}, inputs'.Keys)
      invariant OnlyReached(groups, name, inputs.Keys, inputs'.Keys)
      invariant IncludesOf(entries[..i]) <= inputs'.Keys
    {
      OneMoreInclude(groups, name, i);
      if entries[i].Include? {
        var group := entries[i].group;
        ghost var before := inputs'.Keys;
        inputs' := IncludeGroup(groups, group, inputs', all);
        ReachedThrough(groups, name, group, inputs.Keys, before, inputs'.Keys);
        ClosedThrough(groups, inputs.Keys + {name}, before, inputs'.Keys);
      }
    }
    assert entries[..|entries|] == entries;
    Leaving(groups, name, inputs.Keys, inputs'.Keys);
  }

  lemma NoIncludes()
    ensures IncludesOf([]) == {}
  {
  }

  lemma OneMoreInclude(groups: Groups, name: string, i: nat)
    requires i < |Inputs(groups, name)|
    ensures var entries := Inputs(groups, name);
            && IncludesOf(entries[..i + 1]) == IncludesOf(entries[..i]) + IncludesOf([entries[i]])
            && (if entries[i].Include? then IncludesOf([entries[i]]) == {entries[i].group} else IncludesOf([entries[i]]) == {})
            && (entries[i].Include? ==> entries[i].group in Includes(groups)(name))
  {
    var entries := Inputs(groups, name);
    assert entries[..i + 1] == entries[..i] + [entries[i]];
    assert entries[..i + 1][i] == entries[i] && [entries[i]][0] == entries[i];
    assert forall k :: 0 <= k < i ==> entries[..i + 1][k] == entries[..i][k];
  }

  lemma Entering(groups: Groups, name: string, before: set<string>)
    ensures NewOnesClosed(groups, before, before) && NewOnesClosed(groups, before + {name}, before + {name})
    ensures OnlyReached(groups, name, before, before + {name})
  {
  }

  lemma ClosedThrough(groups: Groups, start: set<string>, before: set<string>, after: set<string>)
    requires NewOnesClosed(groups, start, before) && NewOnesClosed(groups, before, after) && before <= after
    ensures NewOnesClosed(groups, start, after)
  {
  }

  lemma Leaving(groups: Groups, name: string, before: set<string>, after: set<string>)
    requires NewOnesClosed(groups, before + {name}, after) && IncludesOf(Inputs(groups, name)) <= after
    ensures NewOnesClosed(groups, before, after)
  {
  }

  lemma ReachedThrough(groups: Groups, name: string, group: string, start: set<string>, before: set<string>, after: set<string>)
    requires group in Includes(groups)(name)
    requires OnlyReached(groups, name, start, before) && OnlyReached(groups, group, before, after)
    ensures OnlyReached(groups, name, start, after)
  {
    forall t | name in t && Closed(Includes(groups), t) ensures after <= start + t {
      assert Includes(groups)(name) <= t;
    }
  }

  method CollectInputs(groups: Groups, root: string) returns (inputs: Groups)
    ensures IsGroupInputs(groups, root, inputs)
  {
    hide Mentioned, IncludesOf;
    MentionedIsClosed(groups, root);
    inputs := IncludeGroup(groups, root, map[], {root} + Mentioned(groups));
    forall t | {root} <= t && Closed(Includes(groups), t) ensures inputs.Keys <= t {
      assert root in t;
    }
  }

  /** The inputs change exactly when a group that is reached changes. */
  lemma InputsChangeIff(before: Groups, after: Groups, root: string, was: Groups, now: Groups)
    requires IsGroupInputs(before, root, was) && IsGroupInputs(after, root, now)
    ensures was == now <==> forall name :: name in was ==> Inputs(after, name) == Inputs(before, name)
  {
    if forall name :: name in was ==> Inputs(after, name) == Inputs(before, name) {
      ClosureIsLocal(Includes(before), Includes(after), {root}, was.Keys);
      ClosureIsUnique(Includes(after), {root}, was.Keys, now.Keys);
    }
  }
}
