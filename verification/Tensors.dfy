/** Dense tensors in row-major order (crates/rlmesh-spaces/src/tensor.rs). */
module Tensors {
  import opened Wrappers

  datatype DType =
    | Bool | Uint8 | Uint16 | Uint32 | Uint64
    | Int8 | Int16 | Int32 | Int64
    | Float16 | Float32 | Float64
  {
    function Size(): (bytes: nat) {
      match this
      case Bool | Uint8 | Int8 => 1
      case Float16 | Int16 | Uint16 => 2
      case Int32 | Uint32 | Float32 => 4
      case Int64 | Uint64 | Float64 => 8
    }

    predicate IsFloat() {
      Float16? || Float32? || Float64?
    }

    /** The least and greatest value an integer dtype stores. */
    function IntRange(): (int, int) {
      match this
      case Bool => (0, 1)
      case Uint8 => (0, 0xFF)
      case Uint16 => (0, 0xFFFF)
      case Uint32 => (0, 0xFFFF_FFFF)
      case Uint64 => (0, 0xFFFF_FFFF_FFFF_FFFF)
      case Int8 => (-0x80, 0x7F)
      case Int16 => (-0x8000, 0x7FFF)
      case Int32 => (-0x8000_0000, 0x7FFF_FFFF)
      case Int64 => (-0x8000_0000_0000_0000, 0x7FFF_FFFF_FFFF_FFFF)
      case Float16 | Float32 | Float64 => (0, 0)
    }
  }

  ghost function Power(base: nat, n: nat): nat {
    if n == 0 then 1 else base * Power(base, n - 1)
  }

  /** The whole numbers an element can be: all its bytes can tell apart, half of them negative in a signed one. */
  ghost predicate Stores(dtype: DType, n: int) {
    match dtype
    case Bool => n == 0 || n == 1
    case Uint8 | Uint16 | Uint32 | Uint64 => 0 <= n < Power(256, dtype.Size())
    case Int8 | Int16 | Int32 | Int64 => var all: int := Power(256, dtype.Size()); -all <= 2 * n < all
    case Float16 | Float32 | Float64 => false
  }

  lemma PowersOf256()
    ensures Power(256, 1) == 0x100 && Power(256, 2) == 0x1_0000
    ensures Power(256, 4) == 0x1_0000_0000 && Power(256, 8) == 0x1_0000_0000_0000_0000
  {
    assert Power(256, 3) == 256 * Power(256, 2);
    assert Power(256, 5) == 256 * Power(256, 4);
    assert Power(256, 6) == 256 * Power(256, 5);
    assert Power(256, 7) == 256 * Power(256, 6);
  }

  /** An integer dtype's range is what it stores. */
  lemma RangeIsStored(dtype: DType, n: int)
    requires !dtype.IsFloat()
    ensures dtype.IntRange().0 <= n <= dtype.IntRange().1 <==> Stores(dtype, n)
  {
    PowersOf256();
  }

  function Product(shape: seq<nat>): nat {
    if shape == [] then 1 else shape[0] * Product(shape[1..])
  }

  datatype RawTensor = Tensor(dtype: DType, shape: seq<nat>, data: seq<real>) {
    predicate Valid() {
      |data| == Product(shape)
    }

    function NBytes(): nat {
      |data| * dtype.Size()
    }
  }

  /** A constructed tensor always holds as many elements as its shape says. */
  type Tensor = t: RawTensor | t.Valid() witness Tensor(Uint8, [], [0.0])

  predicate Alike(a: Tensor, b: Tensor) {
    a.dtype == b.dtype && a.shape == b.shape
  }

  datatype StackError = EmptyStack | StackMismatch

  /** Every frame has the first one's dtype and shape. */
  predicate Uniform(frames: seq<Tensor>) {
    forall i :: 0 <= i < |frames| ==> Alike(frames[i], frames[0])
  }

  function ConcatData(frames: seq<Tensor>): seq<real> {
    if frames == [] then [] else frames[0].data + ConcatData(frames[1..])
  }

  lemma ConcatDataSize(frames: seq<Tensor>, shape: seq<nat>)
    requires forall i :: 0 <= i < |frames| ==> frames[i].shape == shape
    ensures |ConcatData(frames)| == |frames| * Product(shape)
  {
    if frames != [] {
      ConcatDataSize(frames[1..], shape);
      var width, rest := Product(shape), |frames| - 1;
      assert (rest + 1) * width == rest * width + width;
    }
  }

  /** Stack equally shaped tensors onto a new leading axis. */
  function Stack(frames: seq<Tensor>): Result<Tensor, StackError> {
    if frames == [] then Err(EmptyStack)
    else if !Uniform(frames) then Err(StackMismatch)
    else
      ConcatDataSize(frames, frames[0].shape);
      assert ([|frames|] + frames[0].shape)[1..] == frames[0].shape;
      Ok(Tensor(frames[0].dtype, [|frames|] + frames[0].shape, ConcatData(frames)))
  }

  function Rows(dtype: DType, shape: seq<nat>, count: nat, data: seq<real>): (rows: seq<Tensor>)
    requires |data| == count * Product(shape)
    ensures |rows| == count
    ensures forall i :: 0 <= i < count ==> rows[i].dtype == dtype && rows[i].shape == shape
    decreases count
  {
    if count == 0 then []
    else
      var width := Product(shape);
      assert count * width == width + (count - 1) * width;
      [Tensor(dtype, shape, data[..width])] + Rows(dtype, shape, count - 1, data[width..])
  }

  /** Split a tensor along its leading axis. */
  function Unstack(t: Tensor): (rows: seq<Tensor>)
    requires t.shape != []
    ensures |rows| == t.shape[0]
    ensures forall i :: 0 <= i < |rows| ==> rows[i].dtype == t.dtype && rows[i].shape == t.shape[1..]
  {
    Rows(t.dtype, t.shape[1..], t.shape[0], t.data)
  }

  lemma {:induction false} RowsOfConcat(frames: seq<Tensor>, dtype: DType, shape: seq<nat>)
    requires forall i :: 0 <= i < |frames| ==> frames[i].dtype == dtype && frames[i].shape == shape
    requires |ConcatData(frames)| == |frames| * Product(shape)
    ensures Rows(dtype, shape, |frames|, ConcatData(frames)) == frames
  {
    if frames != [] {
      ConcatDataSize(frames[1..], shape);
      RowsOfConcat(frames[1..], dtype, shape);
      var data := ConcatData(frames);
      assert data[..Product(shape)] == frames[0].data;
      assert data[Product(shape)..] == ConcatData(frames[1..]);
      assert frames == [frames[0]] + frames[1..];
    }
  }

  /** Stacking loses nothing: slot k of a stack is the k-th frame stacked. */
  lemma UnstackStack(frames: seq<Tensor>)
    requires Stack(frames).Ok?
    ensures Stack(frames).value.shape == [|frames|] + frames[0].shape
    ensures Unstack(Stack(frames).value) == frames
  {
    ConcatDataSize(frames, frames[0].shape);
    RowsOfConcat(frames, frames[0].dtype, frames[0].shape);
    assert ([|frames|] + frames[0].shape)[1..] == frames[0].shape;
  }

  /** A stack is refused for want of frames, or because two of them differ in dtype or shape. */
  lemma StackRefusedIff(frames: seq<Tensor>)
    ensures Stack(frames) == Err(EmptyStack) <==> frames == []
    ensures Stack(frames) == Err(StackMismatch) <==>
              exists i, j :: 0 <= i < j < |frames| && (frames[i].dtype != frames[j].dtype || frames[i].shape != frames[j].shape)
  {
    if frames != [] && !Uniform(frames) {
      var i :| 0 <= i < |frames| && !Alike(frames[i], frames[0]);
      assert frames[0].dtype != frames[i].dtype || frames[0].shape != frames[i].shape;
    }
  }

  lemma {:induction false} ConcatOfRows(dtype: DType, shape: seq<nat>, count: nat, data: seq<real>)
    requires |data| == count * Product(shape)
    ensures ConcatData(Rows(dtype, shape, count, data)) == data
    decreases count
  {
    if count > 0 {
      var width := Product(shape);
      assert count * width == width + (count - 1) * width;
      var rows := Rows(dtype, shape, count, data);
      ConcatOfRows(dtype, shape, count - 1, data[width..]);
      assert rows[0].data == data[..width] && rows[1..] == Rows(dtype, shape, count - 1, data[width..]);
      assert data == data[..width] + data[width..];
    }
  }

  /** And unstacking loses nothing: the slices of a tensor stack back to it. */
  lemma StackUnstack(t: Tensor)
    requires t.shape != [] && t.shape[0] > 0
    ensures Stack(Unstack(t)) == Ok(t)
  {
    var rows := Unstack(t);
    assert |t.data| == t.shape[0] * Product(t.shape[1..]);
    ConcatOfRows(t.dtype, t.shape[1..], t.shape[0], t.data);
    assert Uniform(rows);
    assert [|rows|] + rows[0].shape == t.shape;
  }

  /** How many bits an element takes. */
  ghost function Bits(dtype: DType): nat {
    match dtype
    case Bool | Uint8 | Int8 => 8
    case Uint16 | Int16 | Float16 => 16
    case Uint32 | Int32 | Float32 => 32
    case Uint64 | Int64 | Float64 => 64
  }

  /** A tensor's bytes are those of its elements, as many as its shape says. */
  lemma BytesAreItsElements(t: Tensor)
    ensures 8 * t.NBytes() == Product(t.shape) * Bits(t.dtype)
  {
    assert 8 * t.dtype.Size() == Bits(t.dtype);
  }
}
