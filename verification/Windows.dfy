/**
 * The rolling frame window of one stacked input
 * (crates/rlmesh-adapters/src/stateful.rs, `Window`), against the unbounded
 * history of frames it stands for.
 */
module Windows {
  import opened Wrappers
  import opened Tensors
  import opened Plans

  const I64_MIN := -0x8000_0000_0000_0000
  const I64_MAX := 0x7FFF_FFFF_FFFF_FFFF

  /** A cast to i64, which saturates. */
  function ToI64(n: int): int {
    if n < I64_MIN then I64_MIN else if n > I64_MAX then I64_MAX else n
  }

  /** Raw black pushed through the plan: the low end of `normalize`, else zero. */
  function BlackFrame(frame: Tensor, image: ImagePlan): Result<Tensor, ApplyError> {
    var level := if image.normalize.Some? then image.normalize.value.0 else 0.0;
    var whole := ToI64(level.Floor);
    var (low, high) := frame.dtype.IntRange();
    if frame.data != [] && !frame.dtype.IsFloat() && (level.Floor as real != level || whole < low || whole > high)
    then Err(BadPad)
    else Ok(Tensor(frame.dtype, frame.shape, seq(|frame.data|, _ => if frame.dtype.IsFloat() then level else whole as real)))
  }

  /** What fills a window before the first frame of an episode. */
  function PadFrame(first: Tensor, image: ImagePlan): Result<Tensor, ApplyError> {
    match image.stackPad
    case First => Ok(first)
    case Black => BlackFrame(first, image)
  }

  /** The i64 a whole number is cast to. */
  ghost predicate CastTo(level: real, n: int) {
    && I64_MIN <= n <= I64_MAX
    && (n as real < level ==> n == I64_MAX)
    && (n as real > level ==> n == I64_MIN)
  }

  /** The frame with every element at the level; an integer tensor has the i64 it is cast to. */
  ghost predicate IsBlack(black: Tensor, frame: Tensor, level: real) {
    && black.dtype == frame.dtype && black.shape == frame.shape
    && forall k :: 0 <= k < |black.data| ==>
         if black.dtype.IsFloat() then black.data[k] == level
         else exists n: int :: CastTo(level, n) && black.data[k] == n as real
  }

  /** What black is: the low end of `normalize`, or zero without one. */
  ghost function BlackLevel(image: ImagePlan): real {
    match image.normalize
    case None => 0.0
    case Some((low, high)) => low
  }

  /** The pad an input declares: its first frame again, or that frame in black. */
  ghost predicate IsPad(pad: Tensor, first: Tensor, image: ImagePlan) {
    match image.stackPad
    case First => pad == first
    case Black => IsBlack(pad, first, BlackLevel(image))
  }

  /** The level is one an element of this dtype can have. */
  ghost predicate Storable(dtype: DType, level: real) {
    dtype.IsFloat() || (level.Floor as real == level && exists n: int :: CastTo(level, n) && Stores(dtype, n))
  }

  function AbsInt(x: int): nat {
    if x < 0 then -x else x
  }

  /** The offsets a placement gathers: declared, or the last `depth` frames in order. */
  function GatherOffsets(entry: StackedPlacement): seq<int> {
    if entry.offsets.Some? then entry.offsets.value
    else seq(entry.depth, k => k + 1 - entry.depth)
  }

  /** The frame a history shows at index `i`; before the first frame it shows the pad. */
  function FrameAt(history: seq<Tensor>, pad: Tensor, i: int): Tensor
    requires i < |history|
  {
    if i < 0 then pad else history[i]
  }

  /** The newest `span` frames of a history, padded in front. */
  function Recent(history: seq<Tensor>, pad: Tensor, span: nat): (frames: seq<Tensor>)
    ensures |frames| == span
    ensures forall j :: 0 <= j < span ==> frames[j] == FrameAt(history, pad, |history| - span + j)
  {
    seq<Tensor>(span, j requires 0 <= j < span => FrameAt(history, pad, |history| - span + j))
  }

  /** The frames a history shows at the given offsets back from its newest. */
  function Look(history: seq<Tensor>, pad: Tensor, offsets: seq<int>): seq<Tensor>
    requires forall k :: 0 <= k < |offsets| ==> offsets[k] <= 0
  {
    seq<Tensor>(|offsets|, k requires 0 <= k < |offsets| => FrameAt(history, pad, |history| - 1 + offsets[k]))
  }

  function DropFirst(frames: seq<Tensor>): seq<Tensor> {
    if frames == [] then [] else frames[1..]
  }

  /** The frames a window holds after one push. */
  function Pushed(frames: seq<Tensor>, frame: Tensor, span: nat, image: ImagePlan): Result<seq<Tensor>, ApplyError> {
    if frames == [] then
      var pad := PadFrame(frame, image);
      if pad.Err? then Err(pad.error)
      else Ok(Slide(seq(if span > 0 then span - 1 else 0, _ => pad.value), frame, span))
    else Ok(Slide(frames, frame, span))
  }

  function Slide(frames: seq<Tensor>, frame: Tensor, span: nat): seq<Tensor> {
    (if |frames| == span then DropFirst(frames) else frames) + [frame]
  }

  /** The frames a gather picks, or the error it reports. */
  function Picked(frames: seq<Tensor>, entry: StackedPlacement): Result<seq<Tensor>, ApplyError> {
    if entry.offsets.None? then Ok(frames) else PickEach(frames, entry.offsets.value)
  }

  function PickEach(frames: seq<Tensor>, offsets: seq<int>): Result<seq<Tensor>, ApplyError> {
    if offsets == [] then Ok([])
    else
      var before := PickEach(frames, offsets[..|offsets| - 1]);
      var offset := offsets[|offsets| - 1];
      var newest := if |frames| == 0 then 0 else |frames| - 1;
      if before.Err? then before
      else if newest < AbsInt(offset) || |frames| <= newest - AbsInt(offset) then Err(TooFewFrames(offset))
      else Ok(before.value + [frames[newest - AbsInt(offset)]])
  }

  function Gathered(frames: seq<Tensor>, entry: StackedPlacement): Result<Tensor, ApplyError> {
    var picked := Picked(frames, entry);
    if picked.Err? then Err(picked.error) else StackUp(picked.value)
  }

  function StackUp(frames: seq<Tensor>): Result<Tensor, ApplyError> {
    match Stack(frames)
    case Ok(t) => Ok(t)
    case Err(e) => Err(StackFailed(e))
  }

  class Window {
    var frames: seq<Tensor>

    constructor (frames: seq<Tensor>)
      ensures this.frames == frames
    {
      this.frames := frames;
    }

    /** Take in the newest frame; the first one of an episode also fills the window. */
    method Push(frame: Tensor, entry: StackedPlacement, image: ImagePlan) returns (r: Result<(), ApplyError>)
      modifies this
      ensures var pushed := Pushed(old(frames), frame, entry.span, image.(stackPad := entry.stackPad));
              if pushed.Ok? then r == Ok(()) && frames == pushed.value
              else r == Err(pushed.error) && frames == old(frames)
    {
      if |frames| == 0 {
        var pad := PadFrame(frame, image.(stackPad := entry.stackPad));
        if pad.Err? {
          return Err(pad.error);
        }
        var pads := if entry.span > 0 then entry.span - 1 else 0;
        for i := 0 to pads
          invariant frames == seq(i, _ => pad.value)
        {
          frames := frames + [pad.value];
        }
      }
      if |frames| == entry.span {
        frames := DropFirst(frames);
      }
      frames := frames + [frame];
      return Ok(());
    }

    /** One tensor of the frames the placement asks for. */
    method Gather(entry: StackedPlacement) returns (r: Result<Tensor, ApplyError>)
      ensures r == Gathered(frames, entry)
    {
      if entry.offsets.None? {
        return StackUp(frames);
      }
      var offsets := entry.offsets.value;
      var newest := if |frames| == 0 then 0 else |frames| - 1;
      var picked: seq<Tensor> := [];
      for k := 0 to |offsets|
        invariant PickEach(frames, offsets[..k]) == Ok(picked)
      {
        var back := AbsInt(offsets[k]);
        assert offsets[..k + 1][..k] == offsets[..k];
        if newest < back || |frames| <= newest - back {
          PickFails(frames, offsets, k + 1);
          return Err(TooFewFrames(offsets[k]));
        }
        picked := picked + [frames[newest - back]];
      }
      assert offsets[..|offsets|] == offsets;
      return StackUp(picked);
    }
  }

  /** A pick that fails on a prefix of the offsets fails on all of them, for the same reason. */
  lemma {:induction false} PickFails(frames: seq<Tensor>, offsets: seq<int>, k: nat)
    requires k <= |offsets| && PickEach(frames, offsets[..k]).Err?
    ensures PickEach(frames, offsets) == PickEach(frames, offsets[..k])
    decreases |offsets| - k
  {
    if k < |offsets| {
      assert offsets[..k + 1][..k] == offsets[..k];
      PickFails(frames, offsets, k + 1);
    } else {
      assert offsets[..k] == offsets;
    }
  }

  /** The k-th offset is the first to reach further back than the frames do. */
  ghost predicate OutOfReach(frames: seq<Tensor>, offsets: seq<int>, k: nat)
    requires k < |offsets|
  {
    && !(-|frames| < offsets[k] < |frames|)
    && forall i :: 0 <= i < k ==> -|frames| < offsets[i] < |frames|
  }

  /** A pick takes the frame each offset reaches back to, or names the first one out of reach. */
  lemma {:induction false} PicksOrNames(frames: seq<Tensor>, offsets: seq<int>)
    ensures match PickEach(frames, offsets)
            case Ok(picked) =>
              && |picked| == |offsets|
              && forall k :: 0 <= k < |offsets| ==>
                   && -|frames| < offsets[k] < |frames|
                   && picked[k] == frames[|frames| - 1 - if offsets[k] < 0 then -offsets[k] else offsets[k]]
            case Err(e) => exists k :: 0 <= k < |offsets| && OutOfReach(frames, offsets, k) && e == TooFewFrames(offsets[k])
  {
    if offsets != [] {
      var n := |offsets| - 1;
      var front := offsets[..n];
      PicksOrNames(frames, front);
      if PickEach(frames, front).Err? {
        var k :| 0 <= k < |front| && OutOfReach(frames, front, k) && PickEach(frames, front).error == TooFewFrames(front[k]);
        assert OutOfReach(frames, offsets, k);
      } else if PickEach(frames, offsets).Err? {
        assert OutOfReach(frames, offsets, n);
      }
    }
  }

  lemma CastIsNearest(level: real)
    requires level.Floor as real == level
    ensures CastTo(level, ToI64(level.Floor))
    ensures forall n :: CastTo(level, n) ==> n == ToI64(level.Floor)
  {
  }

  lemma BlackIsAsDeclared(frame: Tensor, image: ImagePlan)
    ensures BlackFrame(frame, image).Err? <==> frame.data != [] && !Storable(frame.dtype, BlackLevel(image))
    ensures BlackFrame(frame, image).Ok? ==> IsBlack(BlackFrame(frame, image).value, frame, BlackLevel(image))
    ensures BlackFrame(frame, image).Err? ==> BlackFrame(frame, image).error == BadPad
  {
    hide Stores, CastTo, ToI64;
    var level := BlackLevel(image);
    if level.Floor as real == level && !frame.dtype.IsFloat() {
      CastIsNearest(level);
      RangeIsStored(frame.dtype, ToI64(level.Floor));
    }
  }

  /** Only a black pad is refused: that of a frame with elements, whose dtype cannot store black. */
  lemma PadIsAsDeclared(first: Tensor, image: ImagePlan)
    ensures PadFrame(first, image).Ok? ==> IsPad(PadFrame(first, image).value, first, image)
    ensures PadFrame(first, image).Err? <==>
              image.stackPad.Black? && first.data != [] && !Storable(first.dtype, BlackLevel(image))
    ensures PadFrame(first, image).Err? ==> PadFrame(first, image).error == BadPad
  {
    hide BlackFrame, Storable, IsBlack, BlackLevel;
    BlackIsAsDeclared(first, image);
  }

  /**
   * The first frame of an episode fills its window: with itself, or with black
   * before it.  Only a black the frame's dtype cannot store is refused.
   */
  lemma FirstPushFills(frame: Tensor, span: nat, image: ImagePlan)
    ensures var pushed, held := Pushed([], frame, span, image), if span == 0 then 1 else span;
            && (pushed.Err? <==> image.stackPad.Black? && frame.data != [] && !Storable(frame.dtype, BlackLevel(image)))
            && (pushed.Ok? ==>
                  && |pushed.value| == held && pushed.value[held - 1] == frame
                  && forall k :: 0 <= k < held - 1 ==> IsPad(pushed.value[k], frame, image))
  {
    hide PadFrame, Storable, BlackLevel, IsPad;
    PadIsAsDeclared(frame, image);
  }

  /** The first push leaves a full window: the pad, then the frame. */
  lemma FirstPush(frame: Tensor, span: nat, image: ImagePlan)
    requires 1 <= span && PadFrame(frame, image).Ok?
    ensures Pushed([], frame, span, image) == Ok(Recent([frame], PadFrame(frame, image).value, span))
  {
    var pad := PadFrame(frame, image).value;
    var slid := Slide(seq(span - 1, _ => pad), frame, span);
    var recent := Recent([frame], pad, span);
    assert |slid| == span;
    forall j | 0 <= j < span ensures slid[j] == recent[j] {
    }
    assert slid == recent;
  }

  /** Later pushes slide the window along the history. */
  lemma NextPush(history: seq<Tensor>, pad: Tensor, frame: Tensor, span: nat, image: ImagePlan)
    requires 1 <= span && history != []
    ensures Pushed(Recent(history, pad, span), frame, span, image) == Ok(Recent(history + [frame], pad, span))
  {
    var frames := Recent(history, pad, span);
    var slid := Slide(frames, frame, span);
    var recent := Recent(history + [frame], pad, span);
    assert |slid| == span;
    forall j | 0 <= j < span ensures slid[j] == recent[j] {
    }
    assert slid == recent;
  }

  /** Gathering from the window reads the history itself; it never runs short of frames. */
  lemma GatherReadsHistory(history: seq<Tensor>, pad: Tensor, entry: StackedPlacement, image: ImagePlan)
    requires history != []
    requires WindowLaw(image.stack, image.offsets) && image.stack > 1 && entry == EntryOf(image, entry.planIndex)
    ensures forall k :: 0 <= k < |GatherOffsets(entry)| ==> 1 - entry.span <= GatherOffsets(entry)[k] <= 0
    ensures |GatherOffsets(entry)| == entry.depth
    ensures Picked(Recent(history, pad, entry.span), entry) == Ok(Look(history, pad, GatherOffsets(entry)))
  {
    var frames := Recent(history, pad, entry.span);
    if entry.offsets.Some? {
      PickReadsHistory(history, pad, entry.span, entry.offsets.value);
    } else {
      assert frames == Look(history, pad, GatherOffsets(entry));
    }
  }

  lemma {:induction false} PickReadsHistory(history: seq<Tensor>, pad: Tensor, span: nat, offsets: seq<int>)
    requires 1 <= span
    requires forall k :: 0 <= k < |offsets| ==> 1 - span <= offsets[k] <= 0
    ensures PickEach(Recent(history, pad, span), offsets) == Ok(Look(history, pad, offsets))
  {
    if offsets != [] {
      var n := |offsets| - 1;
      PickReadsHistory(history, pad, span, offsets[..n]);
      var frames := Recent(history, pad, span);
      assert |frames| - 1 >= AbsInt(offsets[n]);
      assert frames[|frames| - 1 - AbsInt(offsets[n])] == FrameAt(history, pad, |history| - 1 + offsets[n]);
      assert Look(history, pad, offsets) == Look(history, pad, offsets[..n]) + [FrameAt(history, pad, |history| - 1 + offsets[n])];
    }
  }
}
