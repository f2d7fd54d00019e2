/**
 * The managed handle around a native Paddle tensor. The native engine is an oracle: the
 * shape it reports, the memory image it hands back for the LoD, and a log of the tensor
 * pointers that `PD_TensorDestroy` was called on.
 */
module PaddleTensor {
  import opened Wrappers
  import opened LodCodec
  import Int32Math

  /** `System.TypeCode`, the runtime type code of the element type `T` of `GetData<T>`. */
  datatype TypeCode =
    | Empty | Object | DBNull | Boolean | Char | SByte | Byte | Int16 | UInt16
    | Int32 | UInt32 | Int64 | UInt64 | Single | Double | Decimal | DateTime | String

  /** The native copy routines `PD_TensorCopyToCpu*` that `GetData<T>` can dispatch to. */
  datatype CopyRoutine = CopyToCpuFloat | CopyToCpuInt32 | CopyToCpuInt64 | CopyToCpuUint8 | CopyToCpuInt8

  /** The element type each copy routine writes. */
  function ElementCode(routine: CopyRoutine): TypeCode {
    match routine
    case CopyToCpuFloat => Single
    case CopyToCpuInt32 => Int32
    case CopyToCpuInt64 => Int64
    case CopyToCpuUint8 => Byte
    case CopyToCpuInt8 => SByte
  }

  /** The type switch of `GetData<T>`: an unsupported element type throws `NotSupportedException`. */
  function CopyRoutineFor(code: TypeCode): (r: Result<CopyRoutine>)
    ensures r.Ok? ==> ElementCode(r.value) == code
    ensures r.Err? ==> r.error == NotSupported
  {
    match code
    case Single => Ok(CopyToCpuFloat)
    case Int32 => Ok(CopyToCpuInt32)
    case Int64 => Ok(CopyToCpuInt64)
    case Byte => Ok(CopyToCpuUint8)
    case SByte => Ok(CopyToCpuInt8)
    case _ => Err(NotSupported)
  }

  /** A type code is accepted exactly when some copy routine writes elements of that type. */
  lemma CopyRoutineForExactly(code: TypeCode, routine: CopyRoutine)
    ensures CopyRoutineFor(code) == Ok(routine) <==> ElementCode(routine) == code
    ensures CopyRoutineFor(code).Ok? <==> exists rt :: ElementCode(rt) == code
  {
    if CopyRoutineFor(code).Err? {
      forall rt: CopyRoutine ensures ElementCode(rt) != code {
        assert CopyRoutineFor(ElementCode(rt)).Ok?;
      }
    }
  }

  /** The element count of `GetData<T>`: the product of the dimensions in unchecked 32-bit `int`. */
  method ElementCount(shape: seq<Word>) returns (size: Word)
    ensures size == Int32Math.Wrap(Int32Math.Product(shape))
    ensures Int32Math.InRange(Int32Math.Product(shape)) ==> size == Int32Math.Product(shape)
    ensures shape == [] ==> size == 1
  {
    size := 1;
    for i := 0 to |shape|
      invariant size == Int32Math.Wrap(Int32Math.Product(shape[..i]))
    {
      assert shape[..i + 1][..i] == shape[..i];
      Int32Math.WrapMul(Int32Math.Product(shape[..i]), shape[i]);
      size := Int32Math.Wrap(size * shape[i]);
    }
    assert shape[..|shape|] == shape;
  }

  /** What `GetData<T>` returns: the routine chosen and the freshly allocated element buffer. */
  datatype Data = Data(routine: CopyRoutine, buffer: array<Word>)

  class Tensor {
    /** The native pointer the handle was created with. */
    ghost const handle: Word
    /** `_ptr`: the owned native tensor, 0 once released. */
    var ptr: Word
    /** The pointers this handle has passed to `PD_TensorDestroy`, in call order. */
    ghost var destroyed: seq<Word>

    /** The handle is live and has destroyed nothing, or it is released and destroyed its tensor once. */
    ghost predicate Valid()
      reads this
    {
      handle != 0 &&
      ((ptr == handle && destroyed == []) || (ptr == 0 && destroyed == [handle]))
    }

    constructor FromPointer(p: Word)
      requires p != 0
      ensures Valid() && handle == p && ptr == p && destroyed == []
    {
      handle := p;
      ptr := p;
      destroyed := [];
    }

    /** The constructor: a null pointer throws `ArgumentNullException`; otherwise it is stored unchanged. */
    static method Create(predictorPointer: Word) returns (r: Result<Tensor>)
      ensures r.Err? <==> predictorPointer == 0
      ensures r.Err? ==> r.error == ArgumentNull
      ensures r.Ok? ==> fresh(r.value) && r.value.Valid()
      ensures r.Ok? ==> r.value.ptr == predictorPointer && r.value.destroyed == []
    {
      if predictorPointer == 0 {
        return Err(ArgumentNull);
      }
      var t := new Tensor.FromPointer(predictorPointer);
      return Ok(t);
    }

    /** Releases the native tensor once; a released handle is left as it is. */
    method Dispose()
      modifies this
      ensures ptr == 0
      ensures destroyed == old(destroyed) + (if old(ptr) != 0 then [old(ptr)] else [])
      ensures old(ptr) == 0 ==> destroyed == old(destroyed)
      ensures old(Valid()) ==> Valid() && destroyed == [handle]
    {
      if ptr != 0 {
        destroyed := destroyed + [ptr];
        ptr := 0;
      }
    }

    /**
     * `GetData<T>` for element type `code`, where `shape` is what the native side reports.
     * The copy routine is chosen first, so an unsupported type fails whatever the shape is.
     * The element values are written by the native copy routine and are not modelled.
     */
    method GetData(code: TypeCode, shape: seq<Word>) returns (r: Result<Data>)
      ensures CopyRoutineFor(code).Err? ==> r == Err(NotSupported)
      ensures CopyRoutineFor(code).Ok? && Int32Math.Wrap(Int32Math.Product(shape)) < 0 ==> r == Err(Overflow)
      ensures r.Ok? ==> r.value.routine == CopyRoutineFor(code).value && ElementCode(r.value.routine) == code
      ensures r.Ok? ==> fresh(r.value.buffer) && r.value.buffer.Length == Int32Math.Wrap(Int32Math.Product(shape))
      ensures r.Ok? <==> CopyRoutineFor(code).Ok? && Int32Math.Wrap(Int32Math.Product(shape)) >= 0
    {
      var copyAction :- CopyRoutineFor(code);
      var size := ElementCount(shape);
      if size < 0 {
        return Err(Overflow);
      }
      var result := new Word[size];
      return Ok(Data(copyAction, result));
    }

    /** `Marshal.ReadIntPtr` on the memory image `heap`. */
    static method ReadIntPtr(heap: array<Word>, a: Word) returns (r: Result<Word>)
      ensures r == ReadWord(heap[..], a)
    {
      if 0 < a < heap.Length {
        return Ok(heap[a]);
      }
      return Err(AccessViolation);
    }

    /** One slot of `GetLod`: the inner array behind the pointer `onePtr`, or null. */
    static method ReadSlot(heap: array<Word>, onePtr: Word) returns (r: Result<Option<seq<Word>>>)
      ensures r == DecodeSlot(heap[..], onePtr)
    {
      if onePtr == 0 {
        return Ok(None);
      }
      var count :- ReadIntPtr(heap, onePtr);
      if count < 0 {
        return Err(Overflow);
      }
      var p :- ReadIntPtr(heap, onePtr + 1);
      ghost var data := p;
      var values: seq<Word> := [];
      for j := 0 to count
        invariant p == data + j
        invariant |values| == j
        invariant j > 0 ==> 0 < data && data + j <= heap.Length
        invariant forall t :: 0 <= t < j ==> values[t] == heap[data + t]
      {
        if !(0 < p < heap.Length) {
          return Err(AccessViolation);
        }
        values := values + [heap[p]];
        p := p + 1;
      }
      assert count > 0 ==> values == heap[..][data..data + count];
      return Ok(Some(values));
    }

    /**
     * `GetLod`: walks the native LoD structure at `plod` in `heap`, word addresses being
     * indices. The result is exactly the specification traversal `Decode`.
     */
    method GetLod(heap: array<Word>, plod: Word) returns (r: Result<DecodedLod>)
      ensures r == Decode(heap[..], plod)
    {
      ghost var mem := heap[..];
      var outer :- ReadIntPtr(heap, plod);
      if outer < 0 {
        return Err(Overflow);
      }
      var pload :- ReadIntPtr(heap, plod + 1);
      ghost var table := pload;
      var lod: DecodedLod := [];
      for i := 0 to outer
        invariant pload == table + i
        invariant DecodeSlots(mem, table, i) == Ok(lod)
      {
        var onePtr := ReadIntPtr(heap, pload);
        if onePtr.Err? {
          DecodeSlotsErrSticks(mem, table, i + 1, outer);
          return Err(onePtr.error);
        }
        var slot := ReadSlot(heap, onePtr.value);
        if slot.Err? {
          DecodeSlotsErrSticks(mem, table, i + 1, outer);
          return Err(slot.error);
        }
        lod := lod + [slot.value];
        pload := pload + 1;
      }
      return Ok(lod);
    }

    /** The first loop of `SetLod`: the words the inner blocks take, `len + 2` each. */
    static method InnerBlocksSize(lod: Lod) returns (count: nat)
      ensures count == BlocksSize(lod)
      ensures count >= 2 * |lod|
    {
      count := 0;
      for k := 0 to |lod|
        invariant count == BlocksSize(lod[..k]) && count >= 2 * k
      {
        BlocksSizeSnoc(lod, k);
        count := count + |lod[k]| + 2;
      }
      assert lod[..|lod|] == lod;
    }

    /**
     * The inner-block writes of `SetLod` for one inner sequence `values` at address `at`:
     * its length, the address of the word after this pointer, then the values in order.
     */
    static method WriteBlock(heap: array<Word>, at: nat, values: seq<Word>) returns (next: nat)
      requires at + 2 + |values| <= heap.Length
      modifies heap
      ensures next == at + 2 + |values|
      ensures heap[..] == old(heap[..])[..at] + Block(values, at) + old(heap[..])[next..]
    {
      ghost var h := heap[..];
      var baseArray := at;
      heap[baseArray] := |values|;
      baseArray := baseArray + 1;
      heap[baseArray] := baseArray + 1;
      baseArray := baseArray + 1;
      for j := 0 to |values|
        invariant baseArray == at + 2 + j
        invariant heap[at] == |values| && heap[at + 1] == at + 2
        invariant forall t :: 0 <= t < j ==> heap[at + 2 + t] == values[t]
        invariant forall a :: 0 <= a < heap.Length && !(at <= a < at + 2 + j) ==> heap[a] == h[a]
      {
        heap[baseArray] := values[j];
        baseArray := baseArray + 1;
      }
      next := baseArray;
      ghost var want := h[..at] + Block(values, at) + h[next..];
      forall a | 0 <= a < heap.Length
        ensures heap[..][a] == want[a]
      {
        if a < at {
          assert want[a] == h[a];
        } else if a < next {
          assert want[a] == Block(values, at)[a - at];
        } else {
          assert want[a] == h[a];
        }
      }
    }

    /**
     * One iteration `i` of `SetLod`'s outer loop: table entry `entry` gets the cursor `at`,
     * then inner block `lod[i]` is written at `at`; the result is the advanced cursor.
     */
    static method WriteSlot(heap: array<Word>, entry: nat, at: nat, ghost base: nat, lod: Lod, i: nat) returns (next: nat)
      requires i < |lod| && SlotsWritten(heap[..], base, lod, i)
      requires entry == base + 2 + i && at == BlockAt(lod, base, i)
      modifies heap
      ensures next == BlockAt(lod, base, i + 1)
      ensures next == at + 2 + |lod[i]| <= heap.Length && entry < at
      ensures heap[..] == old(heap[..])[entry := at][..at] + Block(lod[i], at) + old(heap[..])[next..]
      ensures SlotsWritten(heap[..], base, lod, i + 1)
      ensures |heap[..]| == |old(heap[..])| && heap[..base] == old(heap[..])[..base]
      ensures heap[base + Footprint(lod)..] == old(heap[..])[base + Footprint(lod)..]
    {
      LayoutTable(lod, base, i);
      ghost var h0 := heap[..];
      heap[entry] := at;
      ghost var h1 := heap[..];
      assert h1 == h0[base + 2 + i := at];
      next := WriteBlock(heap, at, lod[i]);
      assert heap[next..] == h1[next..];
      SlotStep(h0, base, lod, i, at, h1, heap[..]);
    }

    /**
     * `SetLod`: serialises the jagged array `lod` into the allocation of `Footprint(lod)`
     * words that `Marshal.AllocHGlobal` returned at word address `base` of `heap`; that
     * address is never null. The allocation ends up holding `Layout(lod, base)` and no
     * word outside it is written.
     */
    method SetLod(heap: array<Word>, base: nat, lod: Lod) returns (size: nat)
      requires 0 < base && base + Footprint(lod) <= heap.Length
      modifies heap
      ensures size == Footprint(lod)
      ensures heap[..] == old(heap[..])[..base] + Layout(lod, base) + old(heap[..])[base + size..]
    {
      var count := InnerBlocksSize(lod);
      size := 2 + |lod| + count;

      assert size == Footprint(lod);
      ghost var before := heap[..];
      var n := |lod|;
      var dataArray := base + 2;
      heap[base] := n;
      heap[base + 1] := dataArray;
      var offset := 0;
      var baseArray := dataArray + n;
      assert lod[..0] == [];
      for i := 0 to n
        invariant offset == i
        invariant baseArray == BlockAt(lod, base, i)
        invariant SlotsWritten(heap[..], base, lod, i)
        invariant |heap[..]| == |before|
        invariant heap[..base] == before[..base]
        invariant heap[base + Footprint(lod)..] == before[base + Footprint(lod)..]
      {
        baseArray := WriteSlot(heap, dataArray + offset, baseArray, base, lod, i);
        offset := offset + 1;
      }
      LayoutFromParts(heap[..], base, lod);
      LayoutSize(lod, base);
      Splice(heap[..], before, base, Layout(lod, base));
    }
  }

  /**
   * `SetLod` followed by `GetLod` on the buffer it wrote: the native side is assumed to keep
   * the buffer as it is between the two calls.
   */
  method SetThenGetLod(t: Tensor, heap: array<Word>, base: nat, lod: Lod) returns (r: Result<DecodedLod>)
    requires 0 < base && base + Footprint(lod) <= heap.Length
    modifies heap
    ensures r == Ok(Present(lod))
  {
    var size := t.SetLod(heap, base, lod);
    RoundTrip(heap[..], base, lod);
    r := t.GetLod(heap, base);
  }
}
