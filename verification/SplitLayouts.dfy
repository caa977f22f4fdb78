/** One flat numeric leaf split into role fields (crates/rlmesh-adapters/src/join.rs, `join_split`). */
module SplitLayouts {
  import opened Wrappers
  import opened Paths
  import opened Spaces
  import opened Layouts

  /** A slice of `dim` elements; without a role it is skipped. `encoding` is its native encoding's width. */
  datatype Field = Field(
    role: Option<string>,
    dim: nat,
    encoding: Option<nat>,
    range: Option<Range>,
    part: Option<string>,
    provenance: Option<string>,
    labels: Option<seq<string>>)

  /** What joining a leaf yields for the resolver. */
  datatype Feature =
    | ImageFeature(source: NodePath, role: string, part: Option<string>, chw: bool, upsideDown: bool,
                   height: nat, width: nat, channels: nat, range: Option<Range>)
    | StateFeature(source: NodePath, role: string, part: Option<string>, sliceOffset: Option<nat>, dim: nat,
                   range: Option<Range>, provenance: Option<string>, labels: Option<seq<string>>)
    | TextFeature(source: NodePath, role: string)

  function Dims(fields: seq<Field>): seq<nat> {
    seq(|fields|, i requires 0 <= i < |fields| => fields[i].dim)
  }

  /** The identity of a field: its role, part and provenance. */
  function KeyOf(field: Field): (Option<string>, Option<string>, Option<string>) {
    (field.role, field.part, field.provenance)
  }

  predicate Repeats(fields: seq<Field>, i: nat)
    requires i < |fields|
  {
    exists j :: 0 <= j < i && fields[j].role.Some? && KeyOf(fields[j]) == KeyOf(fields[i])
  }

  /** What the i-th field yields: a feature over its own slice, nothing for a skip, or an error. */
  function FieldFeature(registry: Registry, source: NodePath, fields: seq<Field>, leaf: SpaceView, i: nat)
    : Result<Option<Feature>, JoinError>
    requires i < |fields|
  {
    var f := fields[i];
    var offset := Offset(Dims(fields), i);
    if f.role.None? then Ok(None)
    else if f.encoding.Some? && f.dim != f.encoding.value then Err(EncodingWidthMismatch)
    else if CheckObservationRole(registry, f.role.value, f.dim).Err? then
      Err(CheckObservationRole(registry, f.role.value, f.dim).error)
    else if Repeats(fields, i) then Err(DuplicateLayoutRole)
    else
      match ReconcileRange(SliceRange(leaf, offset, f.dim), f.range)
      case Err(e) => Err(e)
      case Ok(range) =>
        Ok(Some(StateFeature(source, f.role.value, f.part, Some(offset), f.dim, range, f.provenance, f.labels)))
  }

  function FeaturesUpTo(registry: Registry, source: NodePath, fields: seq<Field>, leaf: SpaceView, n: nat)
    : Result<seq<Feature>, JoinError>
    requires n <= |fields|
  {
    if n == 0 then Ok([])
    else
      match FeaturesUpTo(registry, source, fields, leaf, n - 1)
      case Err(e) => Err(e)
      case Ok(before) =>
        match FieldFeature(registry, source, fields, leaf, n - 1)
        case Err(e) => Err(e)
        case Ok(None) => Ok(before)
        case Ok(Some(feature)) => Ok(before + [feature])
  }

  function Split(registry: Registry, source: NodePath, fields: seq<Field>, leaf: SpaceView): Result<seq<Feature>, JoinError> {
    var sum := Offset(Dims(fields), |fields|);
    if !Numeric(leaf) then Err(ClassMismatch)
    else if sum > U32_MAX then Err(StateLayoutWidthOverflow)
    else if sum != WidthOf(leaf) then Err(StateLayoutWidthMismatch)
    else FeaturesUpTo(registry, source, fields, leaf, |fields|)
  }

  /** An error at one field is the error of the whole layout. */
  lemma {:induction false} FirstErrorStands(
      registry: Registry, source: NodePath, fields: seq<Field>, leaf: SpaceView, n: nat, m: nat)
    requires n <= m <= |fields| && FeaturesUpTo(registry, source, fields, leaf, n).Err?
    ensures FeaturesUpTo(registry, source, fields, leaf, m) == FeaturesUpTo(registry, source, fields, leaf, n)
    decreases m - n
  {
    hide FieldFeature;
    if n < m {
      FirstErrorStands(registry, source, fields, leaf, n, m - 1);
    }
  }

  /** The loop of the source: a running offset and the keys seen so far. */
  method JoinSplit(registry: Registry, source: NodePath, fields: seq<Field>, leaf: SpaceView)
    returns (r: Result<seq<Feature>, JoinError>)
    ensures r == Split(registry, source, fields, leaf)
  {
    if !Numeric(leaf) {
      return Err(ClassMismatch);
    }
    var sum := CheckedSum(Dims(fields));
    if sum.None? {
      return Err(StateLayoutWidthOverflow);
    }
    if sum.value != WidthOf(leaf) {
      return Err(StateLayoutWidthMismatch);
    }
    var features: seq<Feature> := [];
    var seen: seq<(Option<string>, Option<string>, Option<string>)> := [];
    var offset := 0;
    for i := 0 to |fields|
      invariant offset == Offset(Dims(fields), i)
      invariant forall key :: key in seen <==> exists j :: 0 <= j < i && fields[j].role.Some? && KeyOf(fields[j]) == key
      invariant FeaturesUpTo(registry, source, fields, leaf, i) == Ok(features)
    {
      var joined := JoinField(registry, source, fields, leaf, i, offset, seen);
      if joined.Err? {
        FirstErrorStands(registry, source, fields, leaf, i + 1, |fields|);
        return Err(joined.error);
      }
      if joined.value.Some? {
        seen := seen + [KeyOf(fields[i])];
        features := features + [joined.value.value];
      }
      offset := offset + fields[i].dim;
    }
    return Ok(features);
  }

  /** One turn of the loop. */
  method JoinField(
      registry: Registry, source: NodePath, fields: seq<Field>, leaf: SpaceView, i: nat, offset: nat,
      seen: seq<(Option<string>, Option<string>, Option<string>)>)
    returns (r: Result<Option<Feature>, JoinError>)
    requires i < |fields| && offset == Offset(Dims(fields), i)
    requires forall key :: key in seen <==> exists j :: 0 <= j < i && fields[j].role.Some? && KeyOf(fields[j]) == key
    ensures r == FieldFeature(registry, source, fields, leaf, i)
    ensures r.Ok? ==> (r.value.Some? <==> fields[i].role.Some?)
  {
    var f := fields[i];
    if f.role.None? {
      return Ok(None);
    }
    if f.encoding.Some? && f.dim != f.encoding.value {
      return Err(EncodingWidthMismatch);
    }
    var checked := CheckObservationRole(registry, f.role.value, f.dim);
    if checked.Err? {
      return Err(checked.error);
    }
    if KeyOf(f) in seen {
      return Err(DuplicateLayoutRole);
    }
    var range := ReconcileRange(SliceRange(leaf, offset, f.dim), f.range);
    if range.Err? {
      return Err(range.error);
    }
    return Ok(Some(StateFeature(source, f.role.value, f.part, Some(offset), f.dim, range.value, f.provenance, f.labels)));
  }

  /** The indices of the fields that carry a role, in order. */
  ghost function Roled(fields: seq<Field>, n: nat): seq<nat>
    requires n <= |fields|
  {
    if n == 0 then [] else Roled(fields, n - 1) + if fields[n - 1].role.Some? then [n - 1] else []
  }

  /** The feature a roled field becomes, offset and range included. */
  ghost predicate Describes(feature: Feature, source: NodePath, fields: seq<Field>, leaf: SpaceView, i: nat)
    requires i < |fields|
  {
    var f := fields[i];
    var offset := Offset(Dims(fields), i);
    && feature.StateFeature?
    && feature.source == source
    && Some(feature.role) == f.role
    && feature.part == f.part
    && feature.provenance == f.provenance
    && feature.labels == f.labels
    && feature.dim == f.dim
    && feature.sliceOffset == Some(offset)
    && IsRangeOf(feature.range, f.range, leaf, offset, f.dim)
    && TagFits(f.range, leaf, offset, f.dim)
  }

  lemma FieldDescribes(registry: Registry, source: NodePath, fields: seq<Field>, leaf: SpaceView, i: nat)
    requires i < |fields| && FieldFeature(registry, source, fields, leaf, i).Ok?
    ensures var feature := FieldFeature(registry, source, fields, leaf, i).value;
            && (feature.Some? <==> fields[i].role.Some?)
            && (feature.Some? ==> Describes(feature.value, source, fields, leaf, i) && !Repeats(fields, i))
  {
    hide ReconcileRange, IsRangeOf, TagFits;
    ReconcileGives(leaf, Offset(Dims(fields), i), fields[i].dim, fields[i].range);
  }

  lemma {:induction false} FeaturesDescribe(
      registry: Registry, source: NodePath, fields: seq<Field>, leaf: SpaceView, n: nat)
    requires n <= |fields| && FeaturesUpTo(registry, source, fields, leaf, n).Ok?
    ensures var features := FeaturesUpTo(registry, source, fields, leaf, n).value;
            && |features| == |Roled(fields, n)|
            && forall m :: 0 <= m < |features| ==>
                 && Roled(fields, n)[m] < n
                 && Describes(features[m], source, fields, leaf, Roled(fields, n)[m])
                 && !Repeats(fields, Roled(fields, n)[m])
  {
    hide FieldFeature, Describes, Repeats;
    if n > 0 {
      FeaturesDescribe(registry, source, fields, leaf, n - 1);
      FieldDescribes(registry, source, fields, leaf, n - 1);
    }
  }

  /**
   * An accepted layout tiles the leaf: its dims sum to the leaf's width without
   * leaving u32, and each roled field becomes one feature whose offset is the sum
   * of the dims before it and whose range is its slice's common finite bound or
   * its own tag, where the two agree; no two features share an identity.
   */
  lemma AcceptedSplitTiles(registry: Registry, source: NodePath, fields: seq<Field>, leaf: SpaceView)
    requires Split(registry, source, fields, leaf).Ok?
    ensures Offset(Dims(fields), |fields|) == WidthOf(leaf) <= U32_MAX
    ensures forall i :: 0 <= i < |fields| ==> Offset(Dims(fields), i) + fields[i].dim <= WidthOf(leaf)
    ensures var features := Split(registry, source, fields, leaf).value;
            && |features| == |Roled(fields, |fields|)|
            && forall m :: 0 <= m < |features| ==>
                 && Roled(fields, |fields|)[m] < |fields|
                 && Describes(features[m], source, fields, leaf, Roled(fields, |fields|)[m])
                 && !Repeats(fields, Roled(fields, |fields|)[m])
  {
    hide FeaturesUpTo, Describes, Repeats;
    FeaturesDescribe(registry, source, fields, leaf, |fields|);
    forall i | 0 <= i < |fields| ensures Offset(Dims(fields), i) + fields[i].dim <= WidthOf(leaf) {
      OffsetMonotone(Dims(fields), i + 1, |fields|);
    }
  }

  /** The i-th field may stand where it does: a skip always, a roled one if nothing about it contradicts. */
  ghost predicate FieldFits(registry: Registry, fields: seq<Field>, leaf: SpaceView, i: nat)
    requires i < |fields|
  {
    var f := fields[i];
    f.role.Some? ==>
      && (f.encoding.None? || f.encoding == Some(f.dim))
      && RoleFits(registry, f.role.value, f.dim)
      && TagFits(f.range, leaf, Offset(Dims(fields), i), f.dim)
      && forall j :: 0 <= j < i ==>
           fields[j].role != f.role || fields[j].part != f.part || fields[j].provenance != f.provenance
  }

  lemma FieldAcceptedIff(registry: Registry, source: NodePath, fields: seq<Field>, leaf: SpaceView, i: nat)
    requires i < |fields|
    ensures FieldFeature(registry, source, fields, leaf, i).Ok? <==> FieldFits(registry, fields, leaf, i)
  {
    hide ReconcileRange, RoleFits, TagFits, CheckObservationRole;
    ReconcileGives(leaf, Offset(Dims(fields), i), fields[i].dim, fields[i].range);
    if fields[i].role.Some? {
      RoleAcceptedIff(registry, fields[i].role.value, fields[i].dim);
    }
  }

  lemma {:induction false} FieldsAcceptedIff(registry: Registry, source: NodePath, fields: seq<Field>, leaf: SpaceView, n: nat)
    requires n <= |fields|
    ensures FeaturesUpTo(registry, source, fields, leaf, n).Ok? <==>
              forall i :: 0 <= i < n ==> FieldFits(registry, fields, leaf, i)
  {
    hide FieldFeature, FieldFits;
    if n > 0 {
      FieldsAcceptedIff(registry, source, fields, leaf, n - 1);
      FieldAcceptedIff(registry, source, fields, leaf, n - 1);
    }
  }

  /** The leaf is numeric, the fields cover it, and each may stand where it does. */
  ghost predicate LayoutFits(registry: Registry, fields: seq<Field>, leaf: SpaceView) {
    && (leaf.kind.Box? || leaf.kind.Discrete? || leaf.kind.MultiBinary? || leaf.kind.MultiDiscrete?)
    && Offset(Dims(fields), |fields|) == Count(leaf)
    && forall i :: 0 <= i < |fields| ==> FieldFits(registry, fields, leaf, i)
  }

  /** Exactly the layouts that fit their leaf are accepted. */
  lemma SplitAcceptedIff(registry: Registry, source: NodePath, fields: seq<Field>, leaf: SpaceView)
    ensures Split(registry, source, fields, leaf).Ok? <==> LayoutFits(registry, fields, leaf)
  {
    hide FeaturesUpTo, FieldFits;
    FieldsAcceptedIff(registry, source, fields, leaf, |fields|);
  }

  /** The error names something wrong with the i-th field. */
  ghost predicate FieldFault(e: JoinError, registry: Registry, fields: seq<Field>, leaf: SpaceView, i: nat)
    requires i < |fields|
  {
    var f := fields[i];
    f.role.Some? &&
      match e
      case EncodingWidthMismatch => f.encoding.Some? && f.encoding != Some(f.dim)
      case RangeDisagreement => !TagFits(f.range, leaf, Offset(Dims(fields), i), f.dim)
      case DuplicateLayoutRole =>
        exists j :: 0 <= j < i && fields[j].role == f.role && fields[j].part == f.part && fields[j].provenance == f.provenance
      case _ => RoleFault(e, registry, f.role.value, f.dim)
  }

  /** The error names something wrong with the layout. */
  ghost predicate LayoutFault(e: JoinError, registry: Registry, fields: seq<Field>, leaf: SpaceView) {
    match e
    case ClassMismatch => !(leaf.kind.Box? || leaf.kind.Discrete? || leaf.kind.MultiBinary? || leaf.kind.MultiDiscrete?)
    case StateLayoutWidthOverflow => Offset(Dims(fields), |fields|) > 0xFFFF_FFFF
    case StateLayoutWidthMismatch => Offset(Dims(fields), |fields|) <= 0xFFFF_FFFF && Offset(Dims(fields), |fields|) != Count(leaf)
    case _ => exists i :: 0 <= i < |fields| && FieldFault(e, registry, fields, leaf, i)
  }

  lemma FieldErrorHasCause(registry: Registry, source: NodePath, fields: seq<Field>, leaf: SpaceView, i: nat)
    requires i < |fields| && FieldFeature(registry, source, fields, leaf, i).Err?
    ensures FieldFault(FieldFeature(registry, source, fields, leaf, i).error, registry, fields, leaf, i)
  {
    hide ReconcileRange, RoleFault, TagFits, CheckObservationRole;
    ReconcileGives(leaf, Offset(Dims(fields), i), fields[i].dim, fields[i].range);
    if CheckObservationRole(registry, fields[i].role.value, fields[i].dim).Err? {
      RoleErrorHasCause(registry, fields[i].role.value, fields[i].dim);
      OnlyRoleFaults(CheckObservationRole(registry, fields[i].role.value, fields[i].dim).error, registry, fields[i].role.value, fields[i].dim);
    }
  }

  lemma OnlyRoleFaults(e: JoinError, registry: Registry, role: string, dim: nat)
    requires RoleFault(e, registry, role, dim)
    ensures e == RoleDimMismatch || e == InvalidRole || e == ActionRoleOnObservation
  {
  }

  lemma {:induction false} FieldsErrorHasCause(registry: Registry, source: NodePath, fields: seq<Field>, leaf: SpaceView, n: nat)
    requires n <= |fields| && FeaturesUpTo(registry, source, fields, leaf, n).Err?
    ensures exists i :: 0 <= i < n && FieldFault(FeaturesUpTo(registry, source, fields, leaf, n).error, registry, fields, leaf, i)
  {
    hide FieldFeature, FieldFault;
    if FeaturesUpTo(registry, source, fields, leaf, n - 1).Err? {
      FieldsErrorHasCause(registry, source, fields, leaf, n - 1);
    } else {
      FieldErrorHasCause(registry, source, fields, leaf, n - 1);
    }
  }

  /** A refused layout has the fault its error names. */
  lemma SplitErrorHasCause(registry: Registry, source: NodePath, fields: seq<Field>, leaf: SpaceView)
    requires Split(registry, source, fields, leaf).Err?
    ensures LayoutFault(Split(registry, source, fields, leaf).error, registry, fields, leaf)
  {
    hide FeaturesUpTo, FieldFault;
    if FeaturesUpTo(registry, source, fields, leaf, |fields|).Err? {
      FieldsErrorHasCause(registry, source, fields, leaf, |fields|);
      var e := FeaturesUpTo(registry, source, fields, leaf, |fields|).error;
      var i :| 0 <= i < |fields| && FieldFault(e, registry, fields, leaf, i);
      FieldFaultsAre(e, registry, fields, leaf, i);
    }
  }

  lemma FieldFaultsAre(e: JoinError, registry: Registry, fields: seq<Field>, leaf: SpaceView, i: nat)
    requires i < |fields| && FieldFault(e, registry, fields, leaf, i)
    ensures e != ClassMismatch && e != StateLayoutWidthOverflow && e != StateLayoutWidthMismatch
  {
  }

  function Skip(dim: nat): Field {
    Field(None, dim, None, None, None, None, None)
  }

  function Untagged(role: string, dim: nat): Field {
    Field(Some(role), dim, None, None, None, None, None)
  }

  /** A roled, untagged field of width zero joins, and gets no range where the bounds are element-wise. */
  lemma ZeroWidthFieldHasNoRange(registry: Registry, source: NodePath, low: real, high: real)
    requires registry.fixedDim("x/a").None?
    ensures var leaf := SpaceView(Box, [2], Some([Finite(low), Finite(low)]), Some([Finite(high), Finite(high)]), [], []);
            && LeafRange(leaf) == Some((low, high))
            && Split(registry, source, [Untagged("x/a", 0), Skip(2)], leaf)
               == Ok([StateFeature(source, "x/a", None, Some(0), 0, None, None, None)])
  {
    var leaf := SpaceView(Box, [2], Some([Finite(low), Finite(low)]), Some([Finite(high), Finite(high)]), [], []);
    var fields := [Untagged("x/a", 0), Skip(2)];
    OneAxis(2);
    assert Dims(fields) == [0, 2];
    assert Offset([0, 2], 1) == 0 && Offset([0, 2], 2) == 2;
    FreeRole(registry);
    assert FieldFeature(registry, source, fields, leaf, 0)
        == Ok(Some(StateFeature(source, "x/a", None, Some(0), 0, None, None, None)));
    assert FeaturesUpTo(registry, source, fields, leaf, 0) == Ok([]);
    var none: seq<Feature> := [];
    assert FeaturesUpTo(registry, source, fields, leaf, 1) == Ok(none + [StateFeature(source, "x/a", None, Some(0), 0, None, None, None)]);
    assert none + [StateFeature(source, "x/a", None, Some(0), 0, None, None, None)] == [StateFeature(source, "x/a", None, Some(0), 0, None, None, None)];
    assert FieldFeature(registry, source, fields, leaf, 1) == Ok(None);
    assert FeaturesUpTo(registry, source, fields, leaf, 2) == FeaturesUpTo(registry, source, fields, leaf, 1);
  }

  lemma OneAxis(n: nat)
    ensures NumelOf([n]) == n
  {
    var shape: seq<int> := [n];
    assert shape[1..] == [] && NumelOf(shape[1..]) == 1;
  }

  /** A role under the escape kind passes every check of an observation. */
  lemma FreeRole(registry: Registry)
    requires registry.fixedDim("x/a").None?
    ensures CheckObservationRole(registry, "x/a", 0).Ok?
  {
    var role := "x/a";
    assert role[..1] == "x" && role[1] == '/';
    assert KindOf(role, 1) == Some("x");
    assert KindOf(role, 0) == Some("x");
  }

  /** A leaf of any width beyond u32 is accepted, and its layout stops at u32. */
  lemma WideLeafIsCutOff(registry: Registry, source: NodePath, n: nat)
    requires n > U32_MAX
    ensures var leaf := SpaceView(Box, [n], None, None, [], []);
            && Split(registry, source, [Skip(U32_MAX)], leaf) == Ok([])
            && Offset(Dims([Skip(U32_MAX)]), 1) < leaf.Numel()
  {
    var leaf := SpaceView(Box, [n], None, None, [], []);
    var fields := [Skip(U32_MAX)];
    OneAxis(n);
    assert Dims(fields) == [U32_MAX] && Offset([U32_MAX], 0) == 0 && Offset([U32_MAX], 1) == U32_MAX;
    assert FeaturesUpTo(registry, source, fields, leaf, 0) == Ok([]);
    assert FieldFeature(registry, source, fields, leaf, 0) == Ok(None);
  }

  /** Only a leaf no wider than u32 is tiled as a whole: a wider one is cut off at u32. */
  lemma TilesTheWholeLeafIff(registry: Registry, source: NodePath, fields: seq<Field>, leaf: SpaceView)
    requires Split(registry, source, fields, leaf).Ok?
    ensures Offset(Dims(fields), |fields|) == leaf.Numel() <==> leaf.Numel() <= U32_MAX
  {
  }
}
