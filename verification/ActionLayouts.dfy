/** An action layout resolved against its space (crates/rlmesh-adapters/src/join.rs, `resolve_action`). */
module ActionLayouts {
  import opened Wrappers
  import opened Spaces
  import opened Layouts

  /** One slice of the action vector; without a role it is opaque. `encoding` is its base encoding's width. */
  datatype Actuator = Actuator(
    role: Option<string>,
    dim: nat,
    encoding: Option<nat>,
    range: Option<Range>,
    scale: Option<real>,
    invert: bool,
    clip: bool,
    fill: real,
    optional: bool,
    part: Option<string>,
    labels: Option<seq<string>>)

  datatype Action = Action(components: seq<Actuator>, clip: Option<Range>)

  function Dims(components: seq<Actuator>): (dims: seq<nat>)
    ensures |dims| == |components|
  {
    seq(|components|, i requires 0 <= i < |components| => components[i].dim)
  }

  /** The i-th component with its range derived from its own slice, or the error it raises. */
  function ResolveComponent(registry: Registry, c: Actuator, offset: nat, space: SpaceView): Result<Actuator, JoinError> {
    if c.role.None? then Ok(c)
    else if c.encoding.Some? && c.dim != c.encoding.value then Err(ActionEncodingMismatch)
    else if !DimLaw(registry, c.role.value, c.dim) then Err(RoleDimMismatch)
    else if !KnownKind(c.role.value) then Err(InvalidRole)
    else
      match ReconcileRange(SliceRange(space, offset, c.dim), c.range)
      case Err(e) => Err(e)
      case Ok(range) => Ok(c.(range := range))
  }

  function ComponentsUpTo(registry: Registry, components: seq<Actuator>, space: SpaceView, n: nat): (r: Result<seq<Actuator>, JoinError>)
    requires n <= |components|
    ensures r.Ok? ==> |r.value| == n
  {
    if n == 0 then Ok([])
    else
      match ComponentsUpTo(registry, components, space, n - 1)
      case Err(e) => Err(e)
      case Ok(before) =>
        match ResolveComponent(registry, components[n - 1], Offset(Dims(components), n - 1), space)
        case Err(e) => Err(e)
        case Ok(c) => Ok(before + [c])
  }

  function Resolve(registry: Registry, action: Action, space: SpaceView): Result<Action, JoinError> {
    var sum := Offset(Dims(action.components), |action.components|);
    if space.kind != Box then Err(ActionClass)
    else if sum > U32_MAX then Err(ActionWidthOverflow)
    else if sum != WidthOf(space) then Err(ActionWidthMismatch)
    else
      match ComponentsUpTo(registry, action.components, space, |action.components|)
      case Err(e) => Err(e)
      case Ok(components) => Ok(Action(components, action.clip))
  }

  lemma {:induction false} FirstErrorStands(registry: Registry, components: seq<Actuator>, space: SpaceView, n: nat, m: nat)
    requires n <= m <= |components| && ComponentsUpTo(registry, components, space, n).Err?
    ensures ComponentsUpTo(registry, components, space, m) == ComponentsUpTo(registry, components, space, n)
    decreases m - n
  {
    hide ResolveComponent;
    if n < m {
      FirstErrorStands(registry, components, space, n, m - 1);
    }
  }

  /** The loop of the source. */
  method ResolveAction(registry: Registry, action: Action, space: SpaceView) returns (r: Result<Action, JoinError>)
    ensures r == Resolve(registry, action, space)
  {
    if space.kind != Box {
      return Err(ActionClass);
    }
    var width := WidthOf(space);
    var sum := CheckedSum(Dims(action.components));
    if sum.None? {
      return Err(ActionWidthOverflow);
    }
    if sum.value != width {
      return Err(ActionWidthMismatch);
    }
    var components: seq<Actuator> := [];
    var offset := 0;
    for i := 0 to |action.components|
      invariant offset == Offset(Dims(action.components), i)
      invariant ComponentsUpTo(registry, action.components, space, i) == Ok(components)
    {
      var resolved := ResolveComponent(registry, action.components[i], offset, space);
      if resolved.Err? {
        FirstErrorStands(registry, action.components, space, i + 1, |action.components|);
        return Err(resolved.error);
      }
      components := components + [resolved.value];
      offset := offset + action.components[i].dim;
    }
    return Ok(Action(components, action.clip));
  }

  /** A component resolves to itself with another range; its range is its slice's bound or its own tag. */
  ghost predicate Resolved(c: Actuator, d: Actuator, offset: nat, space: SpaceView) {
    && d == c.(range := d.range)
    && (c.role.None? ==> d == c)
    && (c.role.Some? ==> IsRangeOf(d.range, c.range, space, offset, c.dim) && TagFits(c.range, space, offset, c.dim))
  }

  lemma ComponentResolved(registry: Registry, c: Actuator, offset: nat, space: SpaceView)
    requires ResolveComponent(registry, c, offset, space).Ok?
    ensures var d := ResolveComponent(registry, c, offset, space).value;
            && Resolved(c, d, offset, space)
            && ResolveComponent(registry, d, offset, space) == Ok(d)
  {
    hide SliceRange, IsRangeOf, TagFits, ReconcileRange;
    ReconcileGives(space, offset, c.dim, c.range);
    if c.role.Some? {
      ReconcileTwice(SliceRange(space, offset, c.dim), c.range);
    }
  }

  lemma {:induction false} ComponentsResolved(registry: Registry, components: seq<Actuator>, space: SpaceView, n: nat)
    requires n <= |components| && ComponentsUpTo(registry, components, space, n).Ok?
    ensures var out := ComponentsUpTo(registry, components, space, n).value;
            forall i :: 0 <= i < n ==>
              && Resolved(components[i], out[i], Offset(Dims(components), i), space)
              && ResolveComponent(registry, out[i], Offset(Dims(components), i), space) == Ok(out[i])
  {
    hide ResolveComponent, Resolved;
    if n > 0 {
      ComponentsResolved(registry, components, space, n - 1);
      ComponentResolved(registry, components[n - 1], Offset(Dims(components), n - 1), space);
    }
  }

  /**
   * An accepted action layout tiles the action vector: the components keep their
   * order and dims, each resolved over the slice that starts at the sum of the
   * dims before it.
   */
  lemma AcceptedActionTiles(registry: Registry, action: Action, space: SpaceView)
    requires Resolve(registry, action, space).Ok?
    ensures Offset(Dims(action.components), |action.components|) == WidthOf(space) <= U32_MAX
    ensures var out := Resolve(registry, action, space).value;
            && out.clip == action.clip
            && |out.components| == |action.components|
            && forall i :: 0 <= i < |action.components| ==>
                 && Offset(Dims(action.components), i) + action.components[i].dim <= WidthOf(space)
                 && Resolved(action.components[i], out.components[i], Offset(Dims(action.components), i), space)
  {
    hide ResolveComponent, Resolved;
    ComponentsResolved(registry, action.components, space, |action.components|);
    forall i | 0 <= i < |action.components|
      ensures Offset(Dims(action.components), i) + action.components[i].dim <= WidthOf(space)
    {
      OffsetMonotone(Dims(action.components), i + 1, |action.components|);
    }
  }

  /** The i-th component may stand where it does: an opaque one always, a roled one if nothing about it contradicts. */
  ghost predicate ComponentFits(registry: Registry, components: seq<Actuator>, space: SpaceView, i: nat)
    requires i < |components|
  {
    var c := components[i];
    c.role.Some? ==>
      && (c.encoding.None? || c.encoding == Some(c.dim))
      && (registry.fixedDim(c.role.value).None? || registry.fixedDim(c.role.value) == Some(c.dim))
      && NamesKnownKind(c.role.value)
      && TagFits(c.range, space, Offset(Dims(components), i), c.dim)
  }

  lemma ComponentAcceptedIff(registry: Registry, components: seq<Actuator>, space: SpaceView, i: nat)
    requires i < |components|
    ensures ResolveComponent(registry, components[i], Offset(Dims(components), i), space).Ok?
            <==> ComponentFits(registry, components, space, i)
  {
    hide ReconcileRange, TagFits, KnownKind, NamesKnownKind;
    var c := components[i];
    ReconcileGives(space, Offset(Dims(components), i), c.dim, c.range);
    if c.role.Some? {
      KnownKindIff(c.role.value);
    }
  }

  lemma {:induction false} ComponentsAcceptedIff(registry: Registry, components: seq<Actuator>, space: SpaceView, n: nat)
    requires n <= |components|
    ensures ComponentsUpTo(registry, components, space, n).Ok? <==>
              forall i :: 0 <= i < n ==> ComponentFits(registry, components, space, i)
  {
    hide ResolveComponent, ComponentFits, Offset;
    if n > 0 {
      ComponentsAcceptedIff(registry, components, space, n - 1);
      ComponentAcceptedIff(registry, components, space, n - 1);
    }
  }

  /** Exactly the layouts that cover a Box, with nothing contradictory in them, are accepted. */
  lemma ActionAcceptedIff(registry: Registry, action: Action, space: SpaceView)
    ensures Resolve(registry, action, space).Ok? <==>
              && space.kind == Box
              && Offset(Dims(action.components), |action.components|) == Count(space)
              && forall i :: 0 <= i < |action.components| ==> ComponentFits(registry, action.components, space, i)
  {
    hide ComponentsUpTo, ComponentFits;
    ComponentsAcceptedIff(registry, action.components, space, |action.components|);
  }

  /** The error names something wrong with the i-th component. */
  ghost predicate ComponentFault(e: JoinError, registry: Registry, components: seq<Actuator>, space: SpaceView, i: nat)
    requires i < |components|
  {
    var c := components[i];
    c.role.Some? &&
      match e
      case ActionEncodingMismatch => c.encoding.Some? && c.encoding != Some(c.dim)
      case RoleDimMismatch => registry.fixedDim(c.role.value).Some? && registry.fixedDim(c.role.value) != Some(c.dim)
      case InvalidRole => !NamesKnownKind(c.role.value)
      case RangeDisagreement => !TagFits(c.range, space, Offset(Dims(components), i), c.dim)
      case _ => false
  }

  lemma ComponentErrorHasCause(registry: Registry, components: seq<Actuator>, space: SpaceView, i: nat)
    requires i < |components| && ResolveComponent(registry, components[i], Offset(Dims(components), i), space).Err?
    ensures ComponentFault(ResolveComponent(registry, components[i], Offset(Dims(components), i), space).error, registry, components, space, i)
  {
    hide ReconcileRange, TagFits, KnownKind, NamesKnownKind;
    ReconcileGives(space, Offset(Dims(components), i), components[i].dim, components[i].range);
    KnownKindIff(components[i].role.value);
  }

  lemma {:induction false} ComponentsErrorHasCause(registry: Registry, components: seq<Actuator>, space: SpaceView, n: nat)
    requires n <= |components| && ComponentsUpTo(registry, components, space, n).Err?
    ensures exists i :: 0 <= i < n && ComponentFault(ComponentsUpTo(registry, components, space, n).error, registry, components, space, i)
  {
    hide ResolveComponent, ComponentFault, Offset;
    if ComponentsUpTo(registry, components, space, n - 1).Err? {
      ComponentsErrorHasCause(registry, components, space, n - 1);
    } else {
      ComponentErrorHasCause(registry, components, space, n - 1);
    }
  }

  /** A refused layout has the fault its error names. */
  lemma ActionErrorHasCause(registry: Registry, action: Action, space: SpaceView)
    requires Resolve(registry, action, space).Err?
    ensures var e, sum := Resolve(registry, action, space).error, Offset(Dims(action.components), |action.components|);
            match e
            case ActionClass => space.kind != Box
            case ActionWidthOverflow => sum > 0xFFFF_FFFF
            case ActionWidthMismatch => sum <= 0xFFFF_FFFF && sum != Count(space)
            case _ =>
              exists i :: 0 <= i < |action.components| && ComponentFault(e, registry, action.components, space, i)
  {
    hide ComponentsUpTo, ComponentFault;
    if ComponentsUpTo(registry, action.components, space, |action.components|).Err? {
      ComponentsErrorHasCause(registry, action.components, space, |action.components|);
      var e := ComponentsUpTo(registry, action.components, space, |action.components|).error;
      var i :| 0 <= i < |action.components| && ComponentFault(e, registry, action.components, space, i);
      ComponentFaultsAre(e, registry, action.components, space, i);
    }
  }

  lemma ComponentFaultsAre(e: JoinError, registry: Registry, components: seq<Actuator>, space: SpaceView, i: nat)
    requires i < |components| && ComponentFault(e, registry, components, space, i)
    ensures e != ActionClass && e != ActionWidthOverflow && e != ActionWidthMismatch
  {
  }

  /** Resolving each component of a resolved layout changes nothing. */
  lemma {:induction false} ComponentsAgain(registry: Registry, out: seq<Actuator>, space: SpaceView, n: nat)
    requires n <= |out|
    requires forall i :: 0 <= i < n ==> ResolveComponent(registry, out[i], Offset(Dims(out), i), space) == Ok(out[i])
    ensures ComponentsUpTo(registry, out, space, n) == Ok(out[..n])
  {
    hide ResolveComponent, Offset, Dims;
    if n > 0 {
      ComponentsAgain(registry, out, space, n - 1);
      assert ResolveComponent(registry, out[n - 1], Offset(Dims(out), n - 1), space) == Ok(out[n - 1]);
      assert out[..n] == out[..n - 1] + [out[n - 1]];
    }
  }

  /** Re-joining is idempotent: the authoring seam and the resolve seam agree on every accepted layout. */
  lemma ResolveTwice(registry: Registry, action: Action, space: SpaceView)
    requires Resolve(registry, action, space).Ok?
    ensures Resolve(registry, Resolve(registry, action, space).value, space) == Resolve(registry, action, space)
  {
    hide ResolveComponent;
    var components := action.components;
    var out := Resolve(registry, action, space).value.components;
    ComponentsResolved(registry, components, space, |components|);
    assert Dims(out) == Dims(components);
    ComponentsAgain(registry, out, space, |out|);
    assert out[..|out|] == out;
  }
}
