/**
 * The level-of-detail (LoD) metadata of a tensor and the native two-level layout it is
 * exchanged in. Memory is a sequence of machine words; an address is a word index, so one
 * `IntPtr.Size` step is one index step, and address 0 is the null pointer.
 *
 * The layout `SetLod` builds at address `base`, word by word:
 *   base + 0          the outer count n
 *   base + 1          the address of the pointer table, base + 2
 *   base + 2 + i      the address of inner block i            (0 <= i < n)
 *   then, back to back in slot order, one block per inner sequence s:
 *                     |s|, the address of the next word, then the |s| values of s
 */
module LodCodec {
  import opened Wrappers

  /** A native machine word; pointer width is left abstract. */
  type Word = int

  /** The jagged array `SetLod` is given. */
  type Lod = seq<seq<Word>>

  /** The jagged array `GetLod` returns; a null inner pointer leaves its slot `None`. */
  type DecodedLod = seq<Option<seq<Word>>>

  // ---------------------------------------------------------------------------
  // The encoder's layout

  /** Words taken by the inner blocks of `lod`: a count, a data pointer and the values each. */
  function BlocksSize(lod: Lod): nat {
    if lod == [] then 0 else BlocksSize(lod[..|lod| - 1]) + |lod[|lod| - 1]| + 2
  }

  /** Words `SetLod` allocates: the header, the pointer table and the inner blocks. */
  function Footprint(lod: Lod): nat {
    2 + |lod| + BlocksSize(lod)
  }

  /** The address of inner block `i` when the layout starts at `base`. */
  function BlockAt(lod: Lod, base: Word, i: nat): Word
    requires i <= |lod|
  {
    base + 2 + |lod| + BlocksSize(lod[..i])
  }

  /** One inner block placed at address `at`. */
  function Block(s: seq<Word>, at: Word): seq<Word> {
    [|s|, at + 2] + s
  }

  /** The inner blocks of `pre`, back to back from address `start`. */
  function Blocks(pre: Lod, start: Word): seq<Word> {
    if pre == [] then []
    else
      var init := pre[..|pre| - 1];
      Blocks(init, start) + Block(pre[|pre| - 1], start + BlocksSize(init))
  }

  /** The pointer table: entry i holds the address of inner block i. */
  function Table(lod: Lod, base: Word): seq<Word> {
    seq(|lod|, i requires 0 <= i < |lod| => BlockAt(lod, base, i))
  }

  /** The whole buffer `SetLod` writes when the allocation starts at `base`. */
  function Layout(lod: Lod, base: Word): seq<Word> {
    [|lod|, base + 2] + Table(lod, base) + Blocks(lod, base + 2 + |lod|)
  }

  /** The decoded form of a jagged array in which every inner sequence is present. */
  function Present(lod: Lod): DecodedLod {
    seq(|lod|, i requires 0 <= i < |lod| => Some(lod[i]))
  }

  // ---------------------------------------------------------------------------
  // The decoder's traversal

  /** `Marshal.ReadIntPtr`: reading the null pointer or outside the mapped memory faults. */
  function ReadWord(mem: seq<Word>, a: Word): Result<Word> {
    if 0 < a < |mem| then Ok(mem[a]) else Err(AccessViolation)
  }

  /**
   * `count` consecutive words from address `p`; no word is read when `count` is 0, and
   * otherwise a null `p` faults on the first read.
   */
  function ReadWords(mem: seq<Word>, p: Word, count: nat): Result<seq<Word>> {
    if count == 0 then Ok([])
    else if 0 < p && p + count <= |mem| then Ok(mem[p..p + count])
    else Err(AccessViolation)
  }

  /** One slot of the outer array, given the inner pointer read from the table. */
  function DecodeSlot(mem: seq<Word>, entry: Word): Result<Option<seq<Word>>> {
    if entry == 0 then Ok(None)
    else
      var count :- ReadWord(mem, entry);
      if count < 0 then Err(Overflow)
      else
        var data :- ReadWord(mem, entry + 1);
        var values :- ReadWords(mem, data, count);
        Ok(Some(values))
  }

  /** The first `k` slots, decoded in slot order from the pointer table at `table`. */
  function DecodeSlots(mem: seq<Word>, table: Word, k: nat): (r: Result<DecodedLod>)
    ensures r.Ok? ==> |r.value| == k
  {
    if k == 0 then Ok([])
    else
      var done :- DecodeSlots(mem, table, k - 1);
      var entry :- ReadWord(mem, table + k - 1);
      var slot :- DecodeSlot(mem, entry);
      Ok(done + [slot])
  }

  /** `GetLod`'s traversal of the structure at address `plod`. */
  function Decode(mem: seq<Word>, plod: Word): Result<DecodedLod> {
    var n :- ReadWord(mem, plod);
    if n < 0 then Err(Overflow)
    else
      var table :- ReadWord(mem, plod + 1);
      DecodeSlots(mem, table, n)
  }

  // ---------------------------------------------------------------------------
  // Facts about the layout

  lemma BlocksSizeSnoc(lod: Lod, i: nat)
    requires i < |lod|
    ensures BlocksSize(lod[..i + 1]) == BlocksSize(lod[..i]) + |lod[i]| + 2
  {
    assert lod[..i + 1][..i] == lod[..i];
  }

  lemma {:induction false} BlocksSizePrefix(lod: Lod, i: nat)
    requires i <= |lod|
    ensures BlocksSize(lod[..i]) <= BlocksSize(lod)
    decreases |lod| - i
  {
    if i < |lod| {
      BlocksSizeSnoc(lod, i);
      BlocksSizePrefix(lod, i + 1);
    } else {
      assert lod[..i] == lod;
    }
  }

  lemma {:induction false} BlocksLength(pre: Lod, start: Word)
    ensures |Blocks(pre, start)| == BlocksSize(pre)
  {
    if pre != [] {
      BlocksLength(pre[..|pre| - 1], start);
    }
  }

  lemma BlocksSnoc(lod: Lod, i: nat, start: Word)
    requires i < |lod|
    ensures Blocks(lod[..i + 1], start) == Blocks(lod[..i], start) + Block(lod[i], start + BlocksSize(lod[..i]))
  {
    assert lod[..i + 1][..i] == lod[..i];
  }

  /** Word `t` of inner block `i` inside the concatenated blocks. */
  lemma {:induction false} BlocksAt(lod: Lod, start: Word, i: nat, t: nat)
    requires i < |lod| && t < |lod[i]| + 2
    ensures BlocksSize(lod[..i]) + t < |Blocks(lod, start)|
    ensures Blocks(lod, start)[BlocksSize(lod[..i]) + t] == Block(lod[i], start + BlocksSize(lod[..i]))[t]
  {
    var init := lod[..|lod| - 1];
    BlocksLength(init, start);
    BlocksLength(lod, start);
    if i == |lod| - 1 {
      assert lod[..i] == init;
    } else {
      assert init[..i] == lod[..i];
      BlocksAt(init, start, i, t);
      BlocksSizeSnoc(lod, i);
      BlocksSizePrefix(init, i + 1);
      assert init[..i + 1] == lod[..i + 1];
    }
  }

  /** `SetLod` allocates exactly 2 + n + Σ(|lod[i]| + 2) words and writes that many. */
  lemma LayoutSize(lod: Lod, base: Word)
    ensures |Layout(lod, base)| == Footprint(lod)
  {
    BlocksLength(lod, base + 2 + |lod|);
  }

  /**
   * The header holds the outer count and the table address; table entry i points at
   * inner block i; the first block follows the table and each next block follows the
   * previous one, in slot order, inside the allocation.
   */
  lemma LayoutTable(lod: Lod, base: Word, i: nat)
    requires i < |lod|
    ensures Layout(lod, base)[0] == |lod| && Layout(lod, base)[1] == base + 2
    ensures Layout(lod, base)[2 + i] == BlockAt(lod, base, i)
    ensures BlockAt(lod, base, 0) == base + 2 + |lod|
    ensures BlockAt(lod, base, i + 1) == BlockAt(lod, base, i) + |lod[i]| + 2
    ensures BlockAt(lod, base, i + 1) <= base + Footprint(lod)
  {
    BlocksSizeSnoc(lod, i);
    BlocksSizePrefix(lod, i + 1);
  }

  /** Word `t` of inner block i inside the whole layout. */
  lemma LayoutAt(lod: Lod, base: Word, i: nat, t: nat)
    requires i < |lod| && t < |lod[i]| + 2
    ensures 2 + |lod| <= BlockAt(lod, base, i) - base
    ensures BlockAt(lod, base, i) - base + t < |Layout(lod, base)|
    ensures Layout(lod, base)[BlockAt(lod, base, i) - base + t] == Block(lod[i], BlockAt(lod, base, i))[t]
  {
    var start := base + 2 + |lod|;
    BlocksAt(lod, start, i, t);
    var prefix := [|lod|, base + 2] + Table(lod, base);
    var x := BlocksSize(lod[..i]) + t;
    assert Layout(lod, base) == prefix + Blocks(lod, start);
    assert |prefix| == 2 + |lod|;
    assert Layout(lod, base)[|prefix| + x] == Blocks(lod, start)[x];
  }

  /**
   * Inner block i holds |lod[i]|, then the address of the word after that pointer,
   * then exactly the values of lod[i], in order.
   */
  lemma LayoutBlock(lod: Lod, base: Word, i: nat)
    requires i < |lod|
    ensures var o := BlockAt(lod, base, i) - base;
      && 2 + |lod| <= o
      && o + 2 + |lod[i]| <= |Layout(lod, base)|
      && Layout(lod, base)[o] == |lod[i]|
      && Layout(lod, base)[o + 1] == BlockAt(lod, base, i) + 2
      && Layout(lod, base)[o + 2..o + 2 + |lod[i]|] == lod[i]
  {
    var L := Layout(lod, base);
    var at := BlockAt(lod, base, i);
    var o := at - base;
    var n := |lod[i]|;
    LayoutAt(lod, base, i, 0);
    LayoutAt(lod, base, i, 1);
    LayoutAt(lod, base, i, n + 1);
    forall t | 0 <= t < n
      ensures L[o + 2..o + 2 + n][t] == lod[i][t]
    {
      LayoutAt(lod, base, i, t + 2);
    }
  }

  // ---------------------------------------------------------------------------
  // The encoder's progress, slot by slot

  /**
   * What `SetLod` has written at `base` after its first `i` slots: the header, the first
   * `i` table entries and the first `i` inner blocks.
   */
  ghost predicate SlotsWritten(h: seq<Word>, base: nat, lod: Lod, i: nat)
    requires i <= |lod|
  {
    BlocksSizePrefix(lod, i);
    && base + Footprint(lod) <= |h|
    && h[base] == |lod| && h[base + 1] == base + 2
    && (forall t :: 0 <= t < i ==> h[base + 2 + t] == BlockAt(lod, base, t))
    && h[base + 2 + |lod|..BlockAt(lod, base, i)] == Blocks(lod[..i], base + 2 + |lod|)
  }

  /** Appending block i to the blocks of the first i slots. */
  lemma BlocksStep(h: seq<Word>, lod: Lod, start: Word, i: nat, lo: nat, at: nat, next: nat)
    requires i < |lod| && lo <= at <= next <= |h|
    requires at == start + BlocksSize(lod[..i])
    requires h[lo..at] == Blocks(lod[..i], start) && h[at..next] == Block(lod[i], at)
    ensures h[lo..next] == Blocks(lod[..i + 1], start)
  {
    BlocksSnoc(lod, i, start);
    assert h[lo..next] == h[lo..at] + h[at..next];
  }

  /** Writing table entry i and then inner block i extends what has been written by slot i. */
  lemma SlotStep(h0: seq<Word>, base: nat, lod: Lod, i: nat, at: nat, h1: seq<Word>, h2: seq<Word>)
    requires i < |lod| && SlotsWritten(h0, base, lod, i)
    requires at == BlockAt(lod, base, i) && base + 2 + i < |h0| && h1 == h0[base + 2 + i := at]
    requires at + 2 + |lod[i]| <= |h1| && h2 == h1[..at] + Block(lod[i], at) + h1[at + 2 + |lod[i]|..]
    ensures SlotsWritten(h2, base, lod, i + 1)
    ensures |h2| == |h0| && h2[..base] == h0[..base]
    ensures h2[base + Footprint(lod)..] == h0[base + Footprint(lod)..]
  {
    var start := base + 2 + |lod|;
    var next := at + 2 + |lod[i]|;
    LayoutTable(lod, base, i);
    BlocksSizePrefix(lod, i + 1);
    assert forall k :: 0 <= k < at ==> h2[k] == h1[k];
    assert forall k :: next <= k < |h2| ==> h2[k] == h1[k];
    assert h2[start..at] == h0[start..at];
    assert h2[at..next] == Block(lod[i], at);
    BlocksStep(h2, lod, start, i, start, at, next);
    assert h2[..base] == h0[..base];
    assert h2[base + Footprint(lod)..] == h0[base + Footprint(lod)..];
  }

  /** Once every slot is written, the allocation holds the layout. */
  lemma LayoutFromParts(h: seq<Word>, base: nat, lod: Lod)
    requires SlotsWritten(h, base, lod, |lod|)
    ensures h[base..base + Footprint(lod)] == Layout(lod, base)
  {
    var n := |lod|;
    LayoutSize(lod, base);
    assert lod[..n] == lod;
    assert h[base + 2..base + 2 + n] == Table(lod, base);
    assert h[base..base + Footprint(lod)] == [h[base], h[base + 1]] + h[base + 2..base + 2 + n] + h[base + 2 + n..base + Footprint(lod)];
  }

  /** Replacing the words from `base` on by `L` changes no word outside them. */
  lemma Splice(h: seq<Word>, h0: seq<Word>, base: nat, L: seq<Word>)
    requires base + |L| <= |h0| == |h| && h[base..base + |L|] == L
    requires h[..base] == h0[..base] && h[base + |L|..] == h0[base + |L|..]
    ensures h == h0[..base] + L + h0[base + |L|..]
    ensures forall a :: 0 <= a < |h| && !(base <= a < base + |L|) ==> h[a] == h0[a]
  {
    assert h == h[..base] + h[base..base + |L|] + h[base + |L|..];
    forall a | 0 <= a < |h| && !(base <= a < base + |L|)
      ensures h[a] == h0[a]
    {
      if a < base {
        assert h[a] == h[..base][a];
      } else {
        assert h[a] == h[base + |L|..][a - base - |L|];
      }
    }
  }

  // ---------------------------------------------------------------------------
  // Facts about the traversal

  /** Once a slot faults, decoding more slots reports that same fault. */
  lemma {:induction false} DecodeSlotsErrSticks(mem: seq<Word>, table: Word, k: nat, m: nat)
    requires k <= m && DecodeSlots(mem, table, k).Err?
    ensures DecodeSlots(mem, table, m) == DecodeSlots(mem, table, k)
  {
    if k < m {
      DecodeSlotsErrSticks(mem, table, k, m - 1);
    }
  }

  /**
   * Independent reading of a successful traversal: slot i is `None` exactly when table
   * entry i is null; otherwise it holds the count stored at the entry's address and
   * that many words from the data pointer stored after it.
   */
  lemma {:induction false} DecodedSlotAt(mem: seq<Word>, table: Word, k: nat, s: DecodedLod, i: nat)
    requires DecodeSlots(mem, table, k) == Ok(s) && i < k
    ensures |s| == k && 0 < table + i < |mem|
    ensures s[i].None? <==> mem[table + i] == 0
    ensures s[i].Some? ==>
      var e := mem[table + i];
      && 0 < e && e + 1 < |mem|
      && |s[i].value| == mem[e]
      && (mem[e] > 0 ==> 0 < mem[e + 1] && mem[e + 1] + mem[e] <= |mem|)
      && forall j :: 0 <= j < mem[e] ==> s[i].value[j] == mem[mem[e + 1] + j]
  {
    var prev := DecodeSlots(mem, table, k - 1);
    var entry := ReadWord(mem, table + k - 1);
    assert prev.Ok? && entry.Ok?;
    var slot := DecodeSlot(mem, entry.value);
    assert slot.Ok? && s == prev.value + [slot.value];
    if i < k - 1 {
      DecodedSlotAt(mem, table, k - 1, prev.value, i);
    }
  }

  // ---------------------------------------------------------------------------
  // The round trip

  /** `mem` holds the words `L` from address `base` on. */
  predicate Holds(mem: seq<Word>, base: nat, L: seq<Word>) {
    base + |L| <= |mem| && mem[base..base + |L|] == L
  }

  lemma HoldsSlice(mem: seq<Word>, base: nat, L: seq<Word>, x: nat, y: nat)
    requires Holds(mem, base, L) && x <= y <= |L|
    ensures mem[base + x..base + y] == L[x..y]
  {
    forall t | 0 <= t < y - x
      ensures mem[base + x..base + y][t] == L[x..y][t]
    {
      assert mem[base..base + |L|][x + t] == mem[base + x + t];
    }
  }

  /** Slot i of the buffer decodes to the present inner sequence lod[i]. */
  lemma SlotLayout(mem: seq<Word>, base: nat, lod: Lod, i: nat)
    requires Holds(mem, base, Layout(lod, base)) && i < |lod|
    ensures 0 < base + 2 + i < |mem| && mem[base + 2 + i] == BlockAt(lod, base, i)
    ensures DecodeSlot(mem, BlockAt(lod, base, i)) == Ok(Some(lod[i]))
  {
    LayoutSize(lod, base);
    LayoutTable(lod, base, i);
    LayoutBlock(lod, base, i);
    var L := Layout(lod, base);
    var e := BlockAt(lod, base, i);
    var o := e - base;
    var n := |lod[i]|;
    HoldsSlice(mem, base, L, 2 + i, 3 + i);
    assert mem[base + 2 + i] == L[2 + i];
    HoldsSlice(mem, base, L, o, o + 2);
    assert mem[e] == L[o] && mem[e + 1] == L[o + 1];
    HoldsSlice(mem, base, L, o + 2, o + 2 + n);
    assert ReadWords(mem, e + 2, n) == Ok(lod[i]);
  }

  lemma {:induction false} DecodeSlotsLayout(mem: seq<Word>, base: nat, lod: Lod, k: nat)
    requires Holds(mem, base, Layout(lod, base)) && k <= |lod|
    ensures DecodeSlots(mem, base + 2, k) == Ok(Present(lod)[..k])
  {
    if k > 0 {
      DecodeSlotsLayout(mem, base, lod, k - 1);
      SlotLayout(mem, base, lod, k - 1);
      assert Present(lod)[..k] == Present(lod)[..k - 1] + [Some(lod[k - 1])];
    }
  }

  /**
   * decode(encode(x)) == x: `GetLod`'s traversal of `SetLod`'s buffer returns the jagged
   * array. The buffer's address is not null, as no allocation is placed at address 0.
   */
  lemma RoundTrip(mem: seq<Word>, base: nat, lod: Lod)
    requires base > 0 && Holds(mem, base, Layout(lod, base))
    ensures Decode(mem, base) == Ok(Present(lod))
  {
    LayoutSize(lod, base);
    var L := Layout(lod, base);
    HoldsSlice(mem, base, L, 0, 2);
    assert mem[base] == L[0] == |lod| && mem[base + 1] == L[1] == base + 2;
    DecodeSlotsLayout(mem, base, lod, |lod|);
    assert Present(lod)[..|lod|] == Present(lod);
  }

  /**
   * A structure at address 1 whose first table entry is null: that slot stays `None` and
   * the traversal goes on to the next slot, which holds one value.
   */
  lemma NullSlotExample()
    ensures Decode([0, 2, 3, 0, 5, 1, 7, 7], 1) == Ok([None, Some([7])])
  {
    var mem := [0, 2, 3, 0, 5, 1, 7, 7];
    assert ReadWord(mem, 1) == Ok(2) && ReadWord(mem, 2) == Ok(3);
    assert DecodeSlots(mem, 3, 0) == Ok([]);
    assert ReadWord(mem, 3) == Ok(0) && DecodeSlot(mem, 0) == Ok(None);
    var first: DecodedLod := [None];
    assert [] + first == first;
    assert DecodeSlots(mem, 3, 1) == Ok(first);
    assert ReadWord(mem, 4) == Ok(5) && ReadWord(mem, 5) == Ok(1) && ReadWord(mem, 6) == Ok(7);
    assert mem[7..8] == [7];
    assert DecodeSlot(mem, 5) == Ok(Some([7]));
    var both: DecodedLod := [None, Some([7])];
    assert first + [Some([7])] == both;
    assert DecodeSlots(mem, 3, 2) == Ok(both);
  }

  /**
   * A null table pointer under a positive outer count faults at the first slot: address 0
   * is never read.
   */
  lemma NullTableFaults(mem: seq<Word>, plod: Word)
    requires 0 < plod && plod + 1 < |mem| && mem[plod] > 0 && mem[plod + 1] == 0
    ensures Decode(mem, plod) == Err(AccessViolation)
  {
    assert DecodeSlots(mem, 0, 0) == Ok([]);
    assert DecodeSlots(mem, 0, 1) == Err(AccessViolation);
    DecodeSlotsErrSticks(mem, 0, 1, mem[plod]);
  }

  /**
   * When the slots before slot i decode and slot i points at a positive count with a null
   * data pointer, the traversal faults there: address 0 is never read.
   */
  lemma NullDataFaults(mem: seq<Word>, plod: Word, i: nat)
    requires 0 < plod && plod + 1 < |mem| && i < mem[plod]
    requires DecodeSlots(mem, mem[plod + 1], i).Ok?
    requires 0 < mem[plod + 1] + i < |mem|
    requires var e := mem[mem[plod + 1] + i]; 0 < e && e + 1 < |mem| && mem[e] > 0 && mem[e + 1] == 0
    ensures Decode(mem, plod) == Err(AccessViolation)
  {
    assert DecodeSlots(mem, mem[plod + 1], i + 1) == Err(AccessViolation);
    DecodeSlotsErrSticks(mem, mem[plod + 1], i + 1, mem[plod]);
  }
}
