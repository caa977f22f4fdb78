/**
 * Ordered layouts of a flat numeric leaf: a split observation leaf and an
 * action vector (crates/rlmesh-adapters/src/join.rs, `join_split`,
 * `resolve_action` and the range rules they share).
 */
module Layouts {
  import opened Wrappers
  import opened Reals
  import opened Spaces

  const U32_MAX := 0xFFFF_FFFF

  type Range = (real, real)

  datatype JoinError =
    | KeyNotInSpace
    | ClassMismatch
    | TupleArityMismatch
    | EncodingWidthMismatch
    | StateLayoutWidthMismatch
    | StateLayoutWidthOverflow
    | DuplicateLayoutRole
    | LabelWidthMismatch
    | InvalidRole
    | InvalidLabels
    | ActionRoleOnObservation
    | RangeDisagreement
    | ActionClass
    | ActionWidthMismatch
    | ActionWidthOverflow
    | ActionEncodingMismatch
    | RoleDimMismatch

  /** The registered roles that fix their own width; the vocabulary itself is a parameter. */
  datatype Registry = Registry(fixedDim: string -> Option<nat>)

  const KINDS := ["image", "proprio", "text", "action", "command"]

  function KindOf(role: string, from: nat): Option<string>
    requires from <= |role|
    decreases |role| - from
  {
    if from == |role| then None else if role[from] == '/' then Some(role[..from]) else KindOf(role, from + 1)
  }

  /** A kind this core defines, the `x/` escape, or no kind at all. */
  predicate KnownKind(role: string) {
    var kind := KindOf(role, 0);
    kind.None? || kind.value == "x" || kind.value in KINDS
  }

  predicate IsActionRole(role: string) {
    "action/" <= role
  }

  /** A registered fixed-width role must have its width. */
  predicate DimLaw(registry: Registry, role: string, dim: nat) {
    var fixed := registry.fixedDim(role);
    fixed.None? || fixed.value == dim
  }

  /** The checks a roled slice of an observation passes, in the source's order. */
  function CheckObservationRole(registry: Registry, role: string, dim: nat): Result<(), JoinError> {
    if !DimLaw(registry, role, dim) then Err(RoleDimMismatch)
    else if !KnownKind(role) then Err(InvalidRole)
    else if IsActionRole(role) then Err(ActionRoleOnObservation)
    else Ok(())
  }

  predicate Numeric(view: SpaceView) {
    view.kind in {Box, Discrete, MultiBinary, MultiDiscrete}
  }

  /** A leaf's width as a u32, saturating. */
  function WidthOf(view: SpaceView): nat {
    if view.Numel() > U32_MAX then U32_MAX else view.Numel()
  }

  /** The text before the role's first slash, if it has one, is a kind this core defines or the escape. */
  ghost predicate NamesKnownKind(role: string) {
    forall i :: 0 <= i < |role| && role[i] == '/' && '/' !in role[..i] ==>
      role[..i] in {"image", "proprio", "text", "action", "command", "x"}
  }

  lemma {:induction false} KindIsBeforeTheSlash(role: string, from: nat)
    requires from <= |role| && '/' !in role[..from]
    ensures match KindOf(role, from)
            case None => '/' !in role
            case Some(kind) => |kind| < |role| && kind == role[..|kind|] && role[|kind|] == '/' && '/' !in kind
    decreases |role| - from
  {
    if from == |role| {
      assert role[..from] == role;
    } else if role[from] != '/' {
      assert role[..from + 1] == role[..from] + [role[from]];
      KindIsBeforeTheSlash(role, from + 1);
    }
  }

  lemma NotTheFirstSlash(role: string, i: nat, j: nat)
    requires i < j < |role| && role[i] == '/'
    ensures '/' in role[..j]
  {
    assert role[..j][i] == '/';
  }

  /** A role names a known kind exactly as the check says. */
  lemma KnownKindIff(role: string)
    ensures KnownKind(role) <==> NamesKnownKind(role)
  {
    KindIsBeforeTheSlash(role, 0);
    var kind := KindOf(role, 0);
    forall i | kind.Some? && 0 <= i < |role| && role[i] == '/' && '/' !in role[..i] ensures i == |kind.value| {
      if |kind.value| < i {
        NotTheFirstSlash(role, |kind.value|, i);
      }
    }
  }

  /** A roled slice of this width may stand on an observation. */
  ghost predicate RoleFits(registry: Registry, role: string, dim: nat) {
    && NamesKnownKind(role) && !("action/" <= role)
    && (registry.fixedDim(role).None? || registry.fixedDim(role) == Some(dim))
  }

  lemma RoleAcceptedIff(registry: Registry, role: string, dim: nat)
    ensures CheckObservationRole(registry, role, dim).Ok? <==> RoleFits(registry, role, dim)
  {
    hide KnownKind, NamesKnownKind;
    KnownKindIff(role);
  }

  /** The error names something wrong with a roled slice of this width. */
  ghost predicate RoleFault(e: JoinError, registry: Registry, role: string, dim: nat) {
    match e
    case RoleDimMismatch => registry.fixedDim(role).Some? && registry.fixedDim(role) != Some(dim)
    case InvalidRole => !NamesKnownKind(role)
    case ActionRoleOnObservation => "action/" <= role
    case _ => false
  }

  lemma RoleErrorHasCause(registry: Registry, role: string, dim: nat)
    requires CheckObservationRole(registry, role, dim).Err?
    ensures RoleFault(CheckObservationRole(registry, role, dim).error, registry, role, dim)
  {
    hide KnownKind, NamesKnownKind;
    KnownKindIff(role);
  }

  /** The elements of a node, as far as a u32 counts. */
  ghost function Count(view: SpaceView): nat {
    if view.Numel() < 0x1_0000_0000 then view.Numel() else 0xFFFF_FFFF
  }

  // ----- Ranges

  /** The single bound across a slice of one side's bounds; one bound stands for all elements. */
  function SliceUniform(bounds: seq<Bound>, offset: nat, dim: nat): Option<Bound> {
    if |bounds| == 1 then Some(bounds[0])
    else if offset + dim > |bounds| || dim == 0 then None
    else if forall i :: offset <= i < offset + dim ==> bounds[i] == bounds[offset] then Some(bounds[offset])
    else None
  }

  function SliceRange(leaf: SpaceView, offset: nat, dim: nat): Option<Range> {
    if leaf.low.None? || leaf.high.None? then None
    else
      match (SliceUniform(leaf.low.value, offset, dim), SliceUniform(leaf.high.value, offset, dim))
      case (Some(Finite(lo)), Some(Finite(hi))) => Some((lo, hi))
      case _ => None
  }

  /** The leaf's own range: the slice that is the whole leaf. */
  function LeafRange(leaf: SpaceView): Option<Range> {
    SliceRange(leaf, 0, WidthOf(leaf))
  }

  /** What a side's bounds say of one element. */
  function BoundAt(bounds: Option<seq<Bound>>, i: nat): Option<Bound> {
    if bounds.None? then None
    else if |bounds.value| == 1 then Some(bounds.value[0])
    else if i < |bounds.value| then Some(bounds.value[i])
    else None
  }

  /** Every element of the slice is bounded by exactly this range. */
  ghost predicate Bounds(leaf: SpaceView, offset: nat, dim: nat, range: Range) {
    forall i :: offset <= i < offset + dim ==>
      BoundAt(leaf.low, i) == Some(Finite(range.0)) && BoundAt(leaf.high, i) == Some(Finite(range.1))
  }

  /** The range is the one common to the slice; an empty slice has the one that is broadcast to all elements. */
  ghost predicate CommonBound(leaf: SpaceView, offset: nat, dim: nat, range: Range) {
    if dim > 0 then Bounds(leaf, offset, dim, range)
    else leaf.low == Some([Finite(range.0)]) && leaf.high == Some([Finite(range.1)])
  }

  /** A slice has a range exactly when it is the common finite bound of its elements. */
  lemma SliceRangeIsCommonBound(leaf: SpaceView, offset: nat, dim: nat, range: Range)
    ensures SliceRange(leaf, offset, dim) == Some(range) <==> CommonBound(leaf, offset, dim, range)
  {
    if dim == 0 {
      assert leaf.low.Some? && |leaf.low.value| == 1 ==> leaf.low.value == [leaf.low.value[0]];
      assert leaf.high.Some? && |leaf.high.value| == 1 ==> leaf.high.value == [leaf.high.value[0]];
    } else if Bounds(leaf, offset, dim, range) {
      assert BoundAt(leaf.low, offset) == Some(Finite(range.0));
      assert BoundAt(leaf.high, offset + dim - 1) == Some(Finite(range.1));
      assert BoundAt(leaf.low, offset + dim - 1) == Some(Finite(range.0));
      assert BoundAt(leaf.high, offset) == Some(Finite(range.1));
      SliceOfEqual(leaf.low, offset, dim, Finite(range.0));
      SliceOfEqual(leaf.high, offset, dim, Finite(range.1));
    }
  }

  lemma SliceOfEqual(bounds: Option<seq<Bound>>, offset: nat, dim: nat, b: Bound)
    requires dim > 0 && forall i :: offset <= i < offset + dim ==> BoundAt(bounds, i) == Some(b)
    ensures bounds.Some? && SliceUniform(bounds.value, offset, dim) == Some(b)
  {
    assert BoundAt(bounds, offset) == Some(b);
    assert BoundAt(bounds, offset + dim - 1) == Some(b);
    if |bounds.value| != 1 {
      forall i | offset <= i < offset + dim ensures bounds.value[i] == b {
        assert BoundAt(bounds, i) == Some(b);
      }
    }
  }

  /**
   * A uniformly bounded leaf gives a slice inside it the leaf's own range, unless
   * the slice is empty and the bounds are listed element by element: then there is
   * no element to take the range from.
   */
  lemma UniformLeafGivesItsRange(leaf: SpaceView, offset: nat, dim: nat)
    requires LeafRange(leaf).Some? && offset + dim <= WidthOf(leaf)
    ensures SliceRange(leaf, offset, dim) == LeafRange(leaf)
            <==> dim > 0 || (|leaf.low.value| == 1 && |leaf.high.value| == 1)
    ensures SliceRange(leaf, offset, dim).None? || SliceRange(leaf, offset, dim) == LeafRange(leaf)
  {
  }

  predicate Close(x: real, y: real) {
    Abs(x - y) <= 0.000001 * Max(Max(Abs(x), Abs(y)), 1.0)
  }

  /** Two ranges agree up to the rounding of a narrower dtype. */
  predicate RangesAgree(a: Range, b: Range) {
    Close(a.0, b.0) && Close(a.1, b.1)
  }

  /** The space's bounds, overridden by a tag only where the space has none. */
  function ReconcileRange(space: Option<Range>, tag: Option<Range>): Result<Option<Range>, JoinError> {
    match (space, tag)
    case (Some(s), Some(t)) => if RangesAgree(s, t) then Ok(Some(t)) else Err(RangeDisagreement)
    case (Some(s), None) => Ok(Some(s))
    case (None, _) => Ok(tag)
  }

  /** The two are no more than a millionth apart, or a millionth of either. */
  ghost predicate Near(x: real, y: real) {
    Within(x, y, 1.0) || Within(x, y, x) || Within(x, y, -x) || Within(x, y, y) || Within(x, y, -y)
  }

  ghost predicate Within(x: real, y: real, scale: real) {
    -scale <= (x - y) * 1000000.0 <= scale
  }

  lemma CloseIsNear(x: real, y: real)
    ensures Close(x, y) <==> Near(x, y)
  {
  }

  /** A tag that does not contradict the slice: it is near the common bound, if there is one. */
  ghost predicate TagFits(tag: Option<Range>, leaf: SpaceView, offset: nat, dim: nat) {
    tag.Some? ==> forall range :: CommonBound(leaf, offset, dim, range) ==>
                    Near(range.0, tag.value.0) && Near(range.1, tag.value.1)
  }

  /** The range a slice is given: its tag, or the common bound of its elements where it has one. */
  ghost predicate IsRangeOf(given: Option<Range>, tag: Option<Range>, leaf: SpaceView, offset: nat, dim: nat) {
    match tag
    case Some(_) => given == tag
    case None => forall range :: given == Some(range) <==> CommonBound(leaf, offset, dim, range)
  }

  /** Reconciling refuses exactly the tags that contradict the slice, and gives it its range. */
  lemma ReconcileGives(leaf: SpaceView, offset: nat, dim: nat, tag: Option<Range>)
    ensures var given := ReconcileRange(SliceRange(leaf, offset, dim), tag);
            && (given.Ok? <==> TagFits(tag, leaf, offset, dim))
            && (given.Ok? ==> IsRangeOf(given.value, tag, leaf, offset, dim))
            && (given.Err? ==> given.error == RangeDisagreement)
  {
    hide SliceRange, CommonBound, Close, Near;
    forall range: Range
      ensures SliceRange(leaf, offset, dim) == Some(range) <==> CommonBound(leaf, offset, dim, range)
    {
      SliceRangeIsCommonBound(leaf, offset, dim, range);
    }
    if tag.Some? && SliceRange(leaf, offset, dim).Some? {
      CloseIsNear(SliceRange(leaf, offset, dim).value.0, tag.value.0);
      CloseIsNear(SliceRange(leaf, offset, dim).value.1, tag.value.1);
    }
  }

  /** A reconciled range reconciles to itself. */
  lemma ReconcileTwice(space: Option<Range>, tag: Option<Range>)
    requires ReconcileRange(space, tag).Ok?
    ensures ReconcileRange(space, ReconcileRange(space, tag).value) == ReconcileRange(space, tag)
  {
  }

  // ----- Offsets

  /** The sum of the dims before the i-th. */
  function Offset(dims: seq<nat>, i: nat): nat
    requires i <= |dims|
  {
    if i == 0 then 0 else Offset(dims, i - 1) + dims[i - 1]
  }

  lemma {:induction false} OffsetMonotone(dims: seq<nat>, i: nat, j: nat)
    requires i <= j <= |dims|
    ensures Offset(dims, i) <= Offset(dims, j)
    decreases j - i
  {
    if i < j {
      OffsetMonotone(dims, i, j - 1);
    }
  }

  /** Sum dims with a checked u32 addition. */
  method CheckedSum(dims: seq<nat>) returns (sum: Option<nat>)
    ensures sum == if Offset(dims, |dims|) <= U32_MAX then Some(Offset(dims, |dims|)) else None
  {
    var acc := 0;
    for i := 0 to |dims|
      invariant acc == Offset(dims, i) <= U32_MAX
    {
      if acc + dims[i] > U32_MAX {
        OffsetMonotone(dims, i + 1, |dims|);
        return None;
      }
      acc := acc + dims[i];
    }
    return Some(acc);
  }

  /** The slices of an accepted layout tile the width: every element lies in exactly one. */
  lemma {:induction false} SlicesTile(dims: seq<nat>, e: nat) returns (i: nat)
    requires e < Offset(dims, |dims|)
    ensures i < |dims| && Offset(dims, i) <= e < Offset(dims, i) + dims[i] == Offset(dims, i + 1)
    ensures forall j :: 0 <= j < |dims| && Offset(dims, j) <= e < Offset(dims, j) + dims[j] ==> j == i
  {
    i := 0;
    while e >= Offset(dims, i + 1)
      invariant i < |dims| && Offset(dims, i) <= e
      decreases |dims| - i
    {
      i := i + 1;
    }
    forall j | 0 <= j < |dims| && Offset(dims, j) <= e < Offset(dims, j) + dims[j] ensures j == i {
      if j < i {
        OffsetMonotone(dims, j + 1, i);
      } else if i < j {
        OffsetMonotone(dims, i + 1, j);
      }
    }
  }
}
