/** Resolved adapter instructions (crates/rlmesh-adapters/src/plans.rs). */
module Plans {
  import opened Wrappers
  import opened Tensors
  import opened Values
  import opened Paths
  import Trees

  type RawObs = map<string, Value>
  type Row = seq<real>

  /** The engine's errors, by cause; wording is not modelled. */
  datatype ApplyError =
    | NotConsecutive(expected: int)
    | NoActionRecorded(step: int)
    | TooFewFrames(offset: int)
    | StackFailed(stack: StackError)
    | NotATensor
    | MissingSlot
    | BadPad
    | RowWidth
    | NotAnImage
    | PlanFailed

  datatype StackPad = First | Black

  const MAX_STACK_SPAN := 128

  /** One image input. `apply` stands for the image pipeline, None where it fails. */
  datatype ImagePlan = ImagePlan(
    placement: NodePath,
    stack: nat,
    offsets: Option<seq<int>>,
    stackPad: StackPad,
    normalize: Option<(real, real)>,
    frameBytes: nat,
    apply: RawObs -> Option<Value>)

  /**
   * One model input, with its pipeline as a function that is None where it fails.  An
   * action-source part of a state input reads the previous action; a text or custom
   * input may leave its slot out.
   */
  datatype ObsPlan =
    | Image(image: ImagePlan)
    | State(at: NodePath, readsPrevious: bool, state: (RawObs, Option<Row>) -> Option<Value>)
    | Other(at: NodePath, other: RawObs -> Option<Option<Value>>)
  {
    function Placement(): NodePath {
      if Image? then image.placement else at
    }
  }

  datatype StackedPlacement = StackedPlacement(
    placement: NodePath,
    depth: nat,
    planIndex: nat,
    offsets: Option<seq<int>>,
    span: nat,
    stackPad: StackPad,
    frameBytes: nat)

  predicate Ordered(offsets: seq<int>) {
    forall i :: 0 <= i < |offsets| - 1 ==> offsets[i] < offsets[i + 1]
  }

  datatype WindowError = InertPad | OffsetsLaw | DepthDisagrees | SpanTooWide

  /** Validate a declared frame window (crates/rlmesh-adapters/src/resolver/image.rs, `stack_window`). */
  function StackWindow(stack: nat, offsets: Option<seq<int>>, pad: StackPad): Result<Option<seq<int>>, WindowError> {
    if pad != First && stack <= 1 then Err(InertPad)
    else if offsets.None? then Ok(None)
    else if offsets.value == [] || !Ordered(offsets.value)
         || offsets.value[|offsets.value| - 1] != 0 || offsets.value[0] > 0 then Err(OffsetsLaw)
    else if |offsets.value| != stack then Err(DepthDisagrees)
    else if 1 - offsets.value[0] > MAX_STACK_SPAN then Err(SpanTooWide)
    else Ok(offsets)
  }

  /** What the window code relies on: offsets reach back, the first furthest, and the last is the current frame. */
  predicate WindowLaw(stack: nat, offsets: Option<seq<int>>) {
    offsets.Some? ==>
      && |offsets.value| == stack >= 1
      && offsets.value[stack - 1] == 0
      && forall i :: 0 <= i < |offsets.value| ==> offsets.value[0] <= offsets.value[i] <= 0
  }

  lemma {:induction false} OrderedFromFirst(offsets: seq<int>, i: nat, j: nat)
    requires Ordered(offsets) && i <= j < |offsets|
    ensures offsets[i] <= offsets[j] && (i < j ==> offsets[i] < offsets[j])
    decreases j - i
  {
    if i < j {
      OrderedFromFirst(offsets, i, j - 1);
    }
  }

  /** Adjacent comparisons are enough: every accepted window obeys the law. */
  lemma AcceptedWindowObeysLaw(stack: nat, offsets: Option<seq<int>>, pad: StackPad)
    requires StackWindow(stack, offsets, pad).Ok?
    ensures WindowLaw(stack, StackWindow(stack, offsets, pad).value)
  {
    if offsets.Some? {
      forall i | 0 <= i < |offsets.value| ensures offsets.value[0] <= offsets.value[i] <= 0 {
        OrderedFromFirst(offsets.value, 0, i);
        OrderedFromFirst(offsets.value, i, |offsets.value| - 1);
      }
    }
  }

  /** The offsets of a window of this depth: each reaches less far back than the one before, from at most 127 to none. */
  ghost predicate Strided(stack: nat, offsets: seq<int>) {
    && |offsets| == stack > 0
    && -128 < offsets[0] && offsets[stack - 1] == 0
    && forall i, j :: 0 <= i < j < stack ==> offsets[i] < offsets[j]
  }

  /** The error names something wrong with the window. */
  ghost predicate WindowFault(e: WindowError, stack: nat, offsets: Option<seq<int>>, pad: StackPad) {
    match e
    case InertPad => pad == Black && stack <= 1
    case OffsetsLaw => offsets.Some? && !Strided(|offsets.value|, offsets.value)
    case DepthDisagrees => offsets.Some? && |offsets.value| != stack
    case SpanTooWide => offsets.Some? && offsets.value != [] && offsets.value[0] <= -128
  }

  /** Exactly the windows that obey the law are accepted, as declared; a pad needs a window to fill. */
  lemma WindowAcceptedIff(stack: nat, offsets: Option<seq<int>>, pad: StackPad)
    ensures var r := StackWindow(stack, offsets, pad);
            && (r.Ok? <==> (pad == First || stack > 1) && (offsets.Some? ==> Strided(stack, offsets.value)))
            && (r.Ok? ==> r.value == offsets)
            && (r.Err? ==> WindowFault(r.error, stack, offsets, pad))
  {
    if offsets.Some? && Ordered(offsets.value) {
      forall i, j | 0 <= i < j < |offsets.value| ensures offsets.value[i] < offsets.value[j] {
        OrderedFromFirst(offsets.value, i, j);
      }
    }
  }

  /** `(1 - oldest)` for a strided window, the depth for a contiguous one. */
  function Span(image: ImagePlan): nat
    requires WindowLaw(image.stack, image.offsets)
  {
    if image.offsets.Some? && image.offsets.value != [] then 1 - image.offsets.value[0] else image.stack
  }

  predicate Lawful(plans: seq<ObsPlan>) {
    forall i :: 0 <= i < |plans| && plans[i].Image? ==> WindowLaw(plans[i].image.stack, plans[i].image.offsets)
  }

  predicate DistinctPlacements(plans: seq<ObsPlan>) {
    forall i, j :: 0 <= i < j < |plans| ==> plans[i].Placement() != plans[j].Placement()
  }

  /** One plan per leaf of the input tree, placed where the leaf sits: no two plans share a slot. */
  lemma PlansOfOneTree<L>(tree: Trees.Tree<L>, plans: seq<ObsPlan>)
    requires Trees.DistinctKeys(tree) && |plans| == |Trees.Leaves(tree, ROOT)|
    requires forall i :: 0 <= i < |plans| ==> plans[i].Placement() == Trees.Leaves(tree, ROOT)[i].path
    ensures DistinctPlacements(plans)
  {
    hide Trees.Leaves, Trees.DistinctKeys;
    Trees.LeafPathsApart(tree, ROOT);
    forall i, j | 0 <= i < j < |plans| ensures plans[i].Placement() != plans[j].Placement() {
      assert Apart(Trees.Leaves(tree, ROOT)[i].path, Trees.Leaves(tree, ROOT)[j].path);
    }
  }

  predicate Stacks(plan: ObsPlan) {
    plan.Image? && plan.image.stack > 1
  }

  function EntryOf(image: ImagePlan, planIndex: nat): StackedPlacement
    requires WindowLaw(image.stack, image.offsets)
  {
    StackedPlacement(image.placement, image.stack, planIndex, image.offsets,
                     Span(image), image.stackPad, image.frameBytes)
  }

  /** The stacked placements of the first `n` plans. */
  function StackedOf(plans: seq<ObsPlan>, n: nat): seq<StackedPlacement>
    requires n <= |plans| && Lawful(plans)
  {
    if n == 0 then []
    else
      StackedOf(plans, n - 1) + if Stacks(plans[n - 1]) then [EntryOf(plans[n - 1].image, n - 1)] else []
  }

  /** The entry summarizes an image plan that really stacks. */
  predicate IsEntry(plans: seq<ObsPlan>, entry: StackedPlacement)
    requires Lawful(plans)
  {
    && entry.planIndex < |plans|
    && Stacks(plans[entry.planIndex])
    && entry == EntryOf(plans[entry.planIndex].image, entry.planIndex)
  }

  /** The entry is that of the `i`-th plan, an image of more than one frame, and reaches back to its oldest. */
  ghost predicate Summarizes(e: StackedPlacement, plans: seq<ObsPlan>, i: nat)
    requires i < |plans|
  {
    && plans[i].Image? && plans[i].image.stack > 1
    && e.planIndex == i && e.placement == plans[i].image.placement
    && e.depth == plans[i].image.stack && e.offsets == plans[i].image.offsets
    && e.stackPad == plans[i].image.stackPad && e.frameBytes == plans[i].image.frameBytes
    && match e.offsets
       case None => e.span == e.depth
       case Some(offsets) =>
         && (forall o :: o in offsets ==> 1 - e.span <= o <= 0)
         && 1 - e.span in offsets
  }

  lemma EntrySummarizes(plans: seq<ObsPlan>, i: nat)
    requires Lawful(plans) && i < |plans| && Stacks(plans[i])
    ensures Summarizes(EntryOf(plans[i].image, i), plans, i)
  {
    var image := plans[i].image;
    assert WindowLaw(image.stack, image.offsets);
    if image.offsets.Some? {
      assert image.offsets.value[0] in image.offsets.value;
    }
  }

  /** The derived list holds exactly the plans of more than one frame, each once, in plan order. */
  lemma {:induction false} StackedListsTheStackingPlans(plans: seq<ObsPlan>, n: nat)
    requires n <= |plans| && Lawful(plans)
    ensures forall e :: e in StackedOf(plans, n) ==> IsEntry(plans, e) && e.planIndex < n && Summarizes(e, plans, e.planIndex)
    ensures forall j, k :: 0 <= j < k < |StackedOf(plans, n)| ==>
              StackedOf(plans, n)[j].planIndex < StackedOf(plans, n)[k].planIndex
    ensures forall i :: 0 <= i < n && plans[i].Image? && plans[i].image.stack > 1 ==>
              exists e :: e in StackedOf(plans, n) && e.planIndex == i
  {
    hide Summarizes, EntryOf;
    if n > 0 {
      StackedListsTheStackingPlans(plans, n - 1);
      if Stacks(plans[n - 1]) {
        EntrySummarizes(plans, n - 1);
        assert EntryOf(plans[n - 1].image, n - 1) in StackedOf(plans, n);
        EntryHasItsIndex(plans[n - 1].image, n - 1);
      }
    }
  }

  lemma EntryHasItsIndex(image: ImagePlan, i: nat)
    requires WindowLaw(image.stack, image.offsets)
    ensures EntryOf(image, i).planIndex == i
  {
  }

  /** What the engine needs of an adapter's stacking list: real entries, each with a slot of its own. */
  ghost predicate Sound(adapter: Adapter) {
    && Lawful(adapter.plans)
    && DistinctPlacements(adapter.plans)
    && (forall j :: 0 <= j < |adapter.stacked| ==> IsEntry(adapter.plans, adapter.stacked[j]))
    && DistinctSlots(adapter)
  }

  ghost predicate DistinctSlots(adapter: Adapter) {
    forall j, k :: 0 <= j < k < |adapter.stacked| ==>
      adapter.stacked[j].placement != adapter.stacked[k].placement
  }

  /** Different entries stack into different slots. */
  lemma ValidIsSound(adapter: Adapter)
    requires adapter.Valid()
    ensures Sound(adapter)
  {
    StackedListsTheStackingPlans(adapter.plans, |adapter.plans|);
    forall j, k | 0 <= j < k < |adapter.stacked|
      ensures adapter.stacked[j].placement != adapter.stacked[k].placement
    {
      var d, e := adapter.stacked[j], adapter.stacked[k];
      assert d in adapter.stacked && e in adapter.stacked;
      assert d.placement == adapter.plans[d.planIndex].Placement();
      assert e.placement == adapter.plans[e.planIndex].Placement();
    }
  }

  /** A resolved adapter whose derived lists match its plans. */
  datatype Adapter = Adapter(plans: seq<ObsPlan>, inDim: nat, stacked: seq<StackedPlacement>, previous: seq<NodePath>) {
    ghost predicate Valid() {
      && Lawful(plans)
      && DistinctPlacements(plans)
      && stacked == StackedOf(plans, |plans|)
      && previous == PreviousOf(plans, |plans|)
    }

    /** The plan a stacked placement addresses by index. */
    function ImageOf(entry: StackedPlacement): Option<ImagePlan> {
      if entry.planIndex < |plans| && plans[entry.planIndex].Image? then Some(plans[entry.planIndex].image) else None
    }

    predicate ReadsPrevious() {
      previous != []
    }
  }

  function PreviousOf(plans: seq<ObsPlan>, n: nat): seq<NodePath>
    requires n <= |plans|
  {
    if n == 0 then []
    else PreviousOf(plans, n - 1) + (if plans[n - 1].State? && plans[n - 1].readsPrevious then [plans[n - 1].at] else [])
  }

  /** The state inputs that read the previous action are listed by their placements, in plan order. */
  lemma {:induction false} PreviousListsTheReaders(plans: seq<ObsPlan>, n: nat, p: NodePath)
    requires n <= |plans|
    ensures p in PreviousOf(plans, n) <==>
              exists i :: 0 <= i < n && plans[i].State? && plans[i].readsPrevious && plans[i].at == p
  {
    if n > 0 {
      PreviousListsTheReaders(plans, n - 1, p);
    }
  }

  /** An adapter reads the previous action exactly when some state input does. */
  lemma ReadsPreviousIff(adapter: Adapter)
    requires adapter.Valid()
    ensures adapter.ReadsPrevious() <==> exists i :: 0 <= i < |adapter.plans| && adapter.plans[i].State? && adapter.plans[i].readsPrevious
  {
    if adapter.ReadsPrevious() {
      PreviousListsTheReaders(adapter.plans, |adapter.plans|, adapter.previous[0]);
    }
    forall i | 0 <= i < |adapter.plans| && adapter.plans[i].State? && adapter.plans[i].readsPrevious
      ensures adapter.ReadsPrevious()
    {
      PreviousListsTheReaders(adapter.plans, |adapter.plans|, adapter.plans[i].at);
    }
  }

  /** An image plan's window is one the resolver accepted. */
  predicate Accepted(plan: ObsPlan) {
    plan.Image? ==> StackWindow(plan.image.stack, plan.image.offsets, plan.image.stackPad) == Ok(plan.image.offsets)
  }

  /** One accepted plan per leaf of an input tree, placed where the leaf sits, makes a valid adapter. */
  lemma TreeGivesValidAdapter<L>(tree: Trees.Tree<L>, plans: seq<ObsPlan>, inDim: nat)
    requires Trees.DistinctKeys(tree) && |plans| == |Trees.Leaves(tree, ROOT)|
    requires forall i :: 0 <= i < |plans| ==> plans[i].Placement() == Trees.Leaves(tree, ROOT)[i].path && Accepted(plans[i])
    ensures Lawful(plans) && DistinctPlacements(plans) && NewAdapter(plans, inDim).Valid() && Sound(NewAdapter(plans, inDim))
  {
    hide Trees.Leaves, Trees.DistinctKeys;
    PlansOfOneTree(tree, plans);
    forall i | 0 <= i < |plans| && plans[i].Image? ensures WindowLaw(plans[i].image.stack, plans[i].image.offsets) {
      assert Accepted(plans[i]);
      AcceptedWindowObeysLaw(plans[i].image.stack, plans[i].image.offsets, plans[i].image.stackPad);
    }
    ValidIsSound(NewAdapter(plans, inDim));
  }

  /** Assemble a resolved adapter, deriving its stacking and previous-action lists once. */
  function NewAdapter(plans: seq<ObsPlan>, inDim: nat): (adapter: Adapter)
    requires Lawful(plans) && DistinctPlacements(plans)
    ensures adapter.Valid()
  {
    Adapter(plans, inDim, StackedOf(plans, |plans|), PreviousOf(plans, |plans|))
  }
}
