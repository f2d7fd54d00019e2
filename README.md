# PaddleTensor: tensor handle and LoD codec, in Dafny

This project models the managed tensor handle `PaddleTensor` of the PaddleSharp bindings
(`src/Sdcb.PaddleInference/PaddleTensor.cs`). Its core is the level-of-detail (LoD) codec:
`SetLod` serialises a jagged array of machine words into one native buffer, and `GetLod`
walks such a buffer back into a jagged array. Around it sit the handle's constructor null
check, the idempotent `Dispose`, and the type dispatch and element count of `GetData<T>`.

Memory is an `array<int>` (or, in specifications, a `seq<int>`) whose indices are word
addresses: one `IntPtr.Size` step is one index step and address 0 is the null pointer.
The native engine is an oracle: the shape it reports and the LoD memory image it returns
are parameters, and the tensor pointers passed to `PD_TensorDestroy` are logged in the
field `destroyed`.

Files:
- `wrappers.dfy`: `Option`, `Result` and the exceptions the source throws.
- `int32.dfy`: unchecked 32-bit `int` arithmetic (`Wrap`) and the dimension product.
- `lod_codec.dfy`: the buffer `SetLod` writes (`Footprint`, `Layout`), the traversal
  `GetLod` performs (`Decode`), and the lemmas relating them, up to the round trip.
- `paddle_tensor.dfy`: the class `Tensor` (`ptr`, the source's `_ptr`; `Create`, `Dispose`,
  `GetData`, `GetLod`, `SetLod`) and, beside it, the type dispatch `CopyRoutineFor`, the element count
  `ElementCount` and the composition `SetThenGetLod`. `GetLod` and `SetLod` are proved
  against the specification functions above; `Create` and `Dispose` state the handle's
  state before and after.

Layout details the model takes from the code:
- An inner block takes `length + 2` words (count, data pointer, values), as lines 142 and
  163-173 write it.
- A null inner pointer leaves its slot null (`None`), as line 118 does.
- The inner write loop is bound by the inner length (line 169), and the model proves it
  writes exactly that many values.
- Reading address 0 or an address outside the memory faults with `AccessViolation`, as
  `Marshal.ReadIntPtr` does at lines 117 and 126; an allocation is never at address 0.

## Model

| member | source | states |
|---|---|---|
| `PaddleTensor.Tensor.Create` | src/Sdcb.PaddleInference/PaddleTensor.cs:11-18 | fails with `ArgumentNull` exactly when the pointer is zero; otherwise a fresh, valid handle holding that pointer unchanged that has destroyed nothing |
| `PaddleTensor.Tensor.Dispose` | src/Sdcb.PaddleInference/PaddleTensor.cs:182-189 | afterwards `ptr` (the source's `_ptr`) is zero; the native destroy is logged once with the old pointer if it was non-zero and nothing is logged otherwise; a valid handle stays valid, so at most one destroy ever happens |
| `PaddleTensor.CopyRoutineFor` | src/Sdcb.PaddleInference/PaddleTensor.cs:39-48 | the chosen copy routine writes elements of exactly the requested type; any other type fails with `NotSupported` |
| `PaddleTensor.CopyRoutineForExactly` | src/Sdcb.PaddleInference/PaddleTensor.cs:39-48 | a type code selects a routine exactly when that routine's element type is the code, and a code is accepted exactly when some routine writes that type (Single, Int32, Int64, Byte, SByte) |
| `PaddleTensor.ElementCount` | src/Sdcb.PaddleInference/PaddleTensor.cs:50-55 | the count is the 32-bit wrapped product of all dimensions; it equals the true product when that fits in `int`, and is 1 for an empty shape |
| `Int32Math.Wrap` | src/Sdcb.PaddleInference/PaddleTensor.cs:54 | the value an unchecked `int` holds: in range, congruent to the exact value modulo 2^32, and the exact value when that is in range |
| `Int32Math.WrapMul` | src/Sdcb.PaddleInference/PaddleTensor.cs:51-55 | wrapping after every multiplication gives the same result as wrapping the exact product once |
| `Int32Math.ProductNonNegative` | src/Sdcb.PaddleInference/PaddleTensor.cs:50-55 | the exact product of non-negative dimensions is non-negative |
| `Int32Math.WrapProductNonNegative` | src/Sdcb.PaddleInference/PaddleTensor.cs:50-55 | when the exact product of non-negative dimensions is below 2^31, the unchecked `int` element count equals it and is non-negative |
| `Int32Math.ProductZero` | src/Sdcb.PaddleInference/PaddleTensor.cs:50-55 | a shape with a zero dimension has element count 0 |
| `PaddleTensor.Tensor.GetData` | src/Sdcb.PaddleInference/PaddleTensor.cs:37-63 | an unsupported type fails with `NotSupported` whatever the shape; a negative wrapped count fails with `Overflow`; otherwise the routine matches the type and the fresh buffer has exactly the element count as its length |
| `PaddleTensor.Tensor.ReadSlot` | src/Sdcb.PaddleInference/PaddleTensor.cs:117-129 | decoding one slot gives exactly `DecodeSlot`: null for a null pointer, else `count` words from the data pointer, with `Overflow` for a negative count and `AccessViolation` for a read of address 0 or outside the memory |
| `PaddleTensor.Tensor.GetLod` | src/Sdcb.PaddleInference/PaddleTensor.cs:105-135 | the nested-loop traversal returns exactly the specification traversal `Decode` of the memory image, errors included |
| `PaddleTensor.Tensor.InnerBlocksSize` | src/Sdcb.PaddleInference/PaddleTensor.cs:139-143 | the first loop sums `length + 2` over the inner arrays, at least two words per slot |
| `PaddleTensor.Tensor.WriteBlock` | src/Sdcb.PaddleInference/PaddleTensor.cs:163-173 | one inner block is its length, the address of the following word and the values in order; no other word changes |
| `PaddleTensor.Tensor.WriteSlot` | src/Sdcb.PaddleInference/PaddleTensor.cs:158-174 | one outer iteration sets table entry i to the cursor, writes block i there and changes no other word; the written prefix extends to slot i and the cursor moves to block i + 1 |
| `PaddleTensor.Tensor.SetLod` | src/Sdcb.PaddleInference/PaddleTensor.cs:137-178 | allocates exactly `Footprint` words; afterwards the allocation holds `Layout` and every word outside it is unchanged |
| `PaddleTensor.SetThenGetLod` | src/Sdcb.PaddleInference/PaddleTensor.cs:105-178 | running `GetLod` on the buffer `SetLod` just wrote returns every inner array, present and unchanged |
| `LodCodec.LayoutSize` | src/Sdcb.PaddleInference/PaddleTensor.cs:139-145 | the layout is exactly `2 + n + Σ(len_i + 2)` words long |
| `LodCodec.LayoutTable` | src/Sdcb.PaddleInference/PaddleTensor.cs:146-160 | word 0 is the outer count, word 1 the table address `base + 2`; table entry i points to block i; block 0 follows the table and each block follows the previous one, in slot order, inside the allocation |
| `LodCodec.LayoutBlock` | src/Sdcb.PaddleInference/PaddleTensor.cs:163-173 | block i lies after the table and inside the buffer and holds `len_i`, the address of the next word, then exactly the values of inner array i |
| `LodCodec.SlotStep` | src/Sdcb.PaddleInference/PaddleTensor.cs:158-174 | writing table entry i and block i after slots 0..i-1 leaves slots 0..i written and the words outside the allocation as they were |
| `LodCodec.LayoutFromParts` | src/Sdcb.PaddleInference/PaddleTensor.cs:151-174 | a buffer with the header, every table entry and every block written holds the whole layout |
| `LodCodec.DecodeSlots` | src/Sdcb.PaddleInference/PaddleTensor.cs:115-131 | a successful decoding of k slots has k entries |
| `LodCodec.DecodeSlotsErrSticks` | src/Sdcb.PaddleInference/PaddleTensor.cs:115-131 | the first fault in slot order is the fault of the whole traversal |
| `LodCodec.DecodedSlotAt` | src/Sdcb.PaddleInference/PaddleTensor.cs:115-131 | in a successful traversal slot i is null exactly when table entry i is null; otherwise it has the stored count as length and holds the words from the stored data pointer |
| `LodCodec.RoundTrip` | src/Sdcb.PaddleInference/PaddleTensor.cs:105-178 | decoding a memory that holds `Layout(lod, base)` at `base` returns every inner array of `lod`, present, with the same outer length, inner lengths and values |
| `LodCodec.NullSlotExample` | src/Sdcb.PaddleInference/PaddleTensor.cs:118 | in a structure at a non-null address, a null first table entry decodes to a null slot and the traversal goes on with the next slot |
| `LodCodec.NullTableFaults` | src/Sdcb.PaddleInference/PaddleTensor.cs:117 | for every memory image, a null table pointer under a positive outer count is not read: the traversal fails with `AccessViolation` |
| `LodCodec.NullDataFaults` | src/Sdcb.PaddleInference/PaddleTensor.cs:126 | for every memory image, when the slots before slot i decode and slot i holds a positive count with a null data pointer, that pointer is not read: the traversal fails with `AccessViolation` |

## Left out

- All `PaddleNative` calls are foreign: the shape getter, reshape, the copy routines, name,
  data type, set-LoD, get-LoD and the two destroy calls. They appear only as parameters
  (shape, memory image) and as the `destroyed` log.
- `SetData` overloads (lines 65-103) only forward a pinned pointer and check nothing.
- `Name`, `DataType` and `Shape` (lines 20-35, 180) are foreign-call wrappers.
- `Marshal.AllocHGlobal` (line 145) is a parameter: the non-null word address `base` of the
  allocation.
- Memory release is not modelled: `Marshal.FreeHGlobal` after `SetLod`, the LoD header
  destroy after `GetLod` (skipped when a read throws), `GCHandle` pinning and `fixed` blocks.
- Whether the native side keeps the LoD buffer between set and get is native behaviour; the
  round trip is stated as decoding the encoder's output.
- PaddleTensor.Tensor.SetLod: does not model 32-bit wrap of the word count and of its
  product with `IntPtr.Size`; its requires says the allocation of `Footprint` words fits in
  the memory, and out-of-memory from `AllocHGlobal` is not modelled.
- PaddleTensor.Tensor.SetLod: a null outer or inner array (a `NullReferenceException`) is not
  modelled; the input is a sequence of sequences.
- PaddleTensor.Tensor.GetData: the values the native copy routine writes are not modelled;
  the buffer has the right length and routine only.
- PaddleTensor.Tensor.GetLod: words are unbounded integers, so pointer width, the
  `IntPtr`/`UIntPtr` casts and `ToInt64` are identity, and arrays too long for .NET are not
  modelled; a read of address 0 or of an unmapped address is modelled as an
  `AccessViolation` error.
