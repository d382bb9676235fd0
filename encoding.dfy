/** The bytes Emit appends for a finished list of records: the entry
    configuration it derives from the records, the header, one fixed-width
    row per record and one slot bitmap per record. */
module Encoding {
  import opened Bytes
  import opened Entries
  import opened Table

  /** The largest value of a C++ `int`: pcs, trampolines and deopt indexes
      are stored plus one, so they must stay below it. */
  const IntMax: int := 0x7fff_ffff

  /** Every pc, trampoline and deopt index can be stored plus one without
      overflowing an `int`. */
  predicate FieldsFit(es: seq<EntryBuilder>)
  {
    forall i :: 0 <= i < |es| ==> es[i].pc < IntMax && es[i].trampoline < IntMax && es[i].deoptIndex < IntMax
  }

  /** used_register_indexes: the union of all register masks. */
  function UsedRegisters(es: seq<EntryBuilder>): (m: nat)
    ensures m < 0x8000_0000
    ensures forall i :: 0 <= i < |es| ==> es[i].registerIndexes <= m
    ensures forall i, r :: 0 <= i < |es| && BitSet(es[i].registerIndexes, r) ==> BitSet(m, r)
    ensures forall r :: BitSet(m, r) ==> exists i :: 0 <= i < |es| && BitSet(es[i].registerIndexes, r)
  {
    if |es| == 0 then
      assert forall r :: !BitSet(0, r) by {
        forall r { NoBitOfZero(r); }
      }
      0
    else
      var last := es[|es| - 1];
      var init := UsedRegisters(es[..|es| - 1]);
      assert forall i :: 0 <= i < |es| - 1 ==> es[..|es| - 1][i] == es[i];
      Pow2Of31();
      BitOrBounds(init, last.registerIndexes, 31);
      assert forall r :: BitSet(BitOr(init, last.registerIndexes), r) <==> BitSet(init, r) || BitSet(last.registerIndexes, r) by {
        forall r { BitOrBits(init, last.registerIndexes, r); }
      }
      BitOr(init, last.registerIndexes)
  }

  /** max_pc: the largest pc or trampoline, or -1 for an empty list. */
  function MaxPc(es: seq<EntryBuilder>): (m: int)
    ensures m >= -1
    ensures forall i :: 0 <= i < |es| ==> es[i].pc <= m && es[i].trampoline <= m
    ensures m == -1 || exists i :: 0 <= i < |es| && (m == es[i].pc || m == es[i].trampoline)
  {
    if |es| == 0 then -1
    else
      var e := es[|es| - 1];
      var init := MaxPc(es[..|es| - 1]);
      assert forall i :: 0 <= i < |es| - 1 ==> es[..|es| - 1][i] == es[i];
      if init < e.pc && e.trampoline <= e.pc then e.pc
      else if init < e.trampoline && e.pc <= e.trampoline then e.trampoline
      else init
  }

  /** max_deopt_index: the largest deopt index, or -1 when no record has one. */
  function MaxDeoptIndex(es: seq<EntryBuilder>): (m: int)
    ensures m >= -1
    ensures forall i :: 0 <= i < |es| ==> es[i].deoptIndex <= m
    ensures m == -1 || exists i :: 0 <= i < |es| && m == es[i].deoptIndex
  {
    if |es| == 0 then -1
    else
      var init := MaxDeoptIndex(es[..|es| - 1]);
      assert forall i :: 0 <= i < |es| - 1 ==> es[..|es| - 1][i] == es[i];
      if init < es[|es| - 1].deoptIndex then es[|es| - 1].deoptIndex else init
  }

  /** The table has deopt data exactly when some record has a deopt index. */
  lemma HasDeoptData(es: seq<EntryBuilder>)
    ensures MaxDeoptIndex(es) != NoDeoptIndex <==> exists i :: 0 <= i < |es| && es[i].deoptIndex != NoDeoptIndex
  {
    if MaxDeoptIndex(es) == NoDeoptIndex {
      assert forall i :: 0 <= i < |es| ==> es[i].deoptIndex == NoDeoptIndex;
    }
  }

  lemma MaximaFit(es: seq<EntryBuilder>)
    requires FieldsFit(es)
    ensures MaxPc(es) < IntMax && MaxDeoptIndex(es) < IntMax
  {
    if MaxPc(es) != -1 {
      var k :| 0 <= k < |es| && (MaxPc(es) == es[k].pc || MaxPc(es) == es[k].trampoline);
    }
    if MaxDeoptIndex(es) != -1 {
      var k :| 0 <= k < |es| && MaxDeoptIndex(es) == es[k].deoptIndex;
    }
  }

  /** Bytes of a bitmap of `taggedSlotsSize` bits. */
  function BitmapBytes(taggedSlotsSize: nat): nat
  {
    (taggedSlotsSize + 7) / 8
  }

  /** The configuration Emit derives from the records it writes and the
      frame's (trimmed) tagged slot count. */
  function TableConfiguration(es: seq<EntryBuilder>, taggedSlotsSize: nat): (c: EntryConfiguration)
    requires FieldsFit(es)
    ensures c.hasDeoptData <==> exists i :: 0 <= i < |es| && es[i].deoptIndex != NoDeoptIndex
    ensures c.registerIndexesSize <= 4 && c.pcSize <= 4 && c.deoptIndexSize <= 4
    ensures forall i :: 0 <= i < |es| ==> es[i].registerIndexes < Pow256(c.registerIndexesSize)
    ensures forall i :: 0 <= i < |es| ==> es[i].pc < Pow256(c.pcSize) && es[i].trampoline + 1 < Pow256(c.pcSize)
    ensures forall i :: 0 <= i < |es| ==> es[i].deoptIndex + 1 < Pow256(c.deoptIndexSize)
    ensures c.taggedSlotsBytes == BitmapBytes(taggedSlotsSize) && 8 * c.taggedSlotsBytes >= taggedSlotsSize
  {
    HasDeoptData(es);
    Pow256Values();
    MaximaFit(es);
    var maxPc, maxDeopt := MaxPc(es), MaxDeoptIndex(es);
    EntryConfiguration(
      maxDeopt != NoDeoptIndex,
      ValueToBytes(UsedRegisters(es)),
      ValueToBytes(maxPc + 1),
      ValueToBytes(maxDeopt + 1),
      BitmapBytes(taggedSlotsSize))
  }

  /** One record's row: pc, then deopt index and trampoline (each plus one)
      when the table has deopt data, then the register mask. */
  function EncodeEntry(e: EntryBuilder, c: EntryConfiguration): (row: seq<byte>)
    ensures |row| == EntrySize(c)
  {
    EncodeLE(e.pc, c.pcSize)
    + (if c.hasDeoptData then EncodeLE(e.deoptIndex + 1, c.deoptIndexSize) + EncodeLE(e.trampoline + 1, c.pcSize) else [])
    + EncodeLE(e.registerIndexes, c.registerIndexesSize)
  }

  /** The bytes of `parts`, one after another. */
  function Concat(parts: seq<seq<byte>>): (s: seq<byte>)
  {
    if |parts| == 0 then [] else Concat(parts[..|parts| - 1]) + parts[|parts| - 1]
  }

  /** Parts of one width w sit at multiples of w. */
  lemma {:induction false} ConcatUniform(parts: seq<seq<byte>>, w: nat, i: nat)
    requires forall k :: 0 <= k < |parts| ==> |parts[k]| == w
    requires i < |parts|
    ensures |Concat(parts)| == Offset(|parts|, w)
    ensures Offset(i, w) + w <= |Concat(parts)|
    ensures Concat(parts)[Offset(i, w)..Offset(i, w) + w] == parts[i]
  {
    var n := |parts|;
    var init := parts[..n - 1];
    if i < n - 1 {
      ConcatUniform(init, w, i);
    } else if n > 1 {
      ConcatUniform(init, w, 0);
    }
    ConcatLength(init, w);
  }

  lemma {:induction false} ConcatLength(parts: seq<seq<byte>>, w: nat)
    requires forall k :: 0 <= k < |parts| ==> |parts[k]| == w
    ensures |Concat(parts)| == Offset(|parts|, w)
  {
    if |parts| > 0 {
      ConcatLength(parts[..|parts| - 1], w);
    }
  }

  /** One more part at the end. */
  lemma ConcatSnoc(parts: seq<seq<byte>>, i: nat)
    requires i < |parts|
    ensures Concat(parts[..i + 1]) == Concat(parts[..i]) + parts[i]
  {
    assert parts[..i + 1][..i] == parts[..i];
  }

  /** The row of every record. */
  function Rows(es: seq<EntryBuilder>, c: EntryConfiguration): (rows: seq<seq<byte>>)
    ensures |rows| == |es|
    ensures forall i :: 0 <= i < |es| ==> rows[i] == EncodeEntry(es[i], c)
  {
    seq(|es|, i requires 0 <= i < |es| => EncodeEntry(es[i], c))
  }

  /** Marks slot idx of a frame of `taggedSlotsSize` slots: bit
      (size - 1 - idx) % 8 of byte (size - 1 - idx) / 8. */
  function SetSlot(bits: seq<byte>, taggedSlotsSize: nat, idx: nat): (r: seq<byte>)
    requires idx < taggedSlotsSize && |bits| == BitmapBytes(taggedSlotsSize)
    ensures |r| == |bits|
  {
    var index := taggedSlotsSize - 1 - idx;
    SetBitInByte(bits[index / 8], index % 8, 0);
    bits[index / 8 := SetBit(bits[index / 8], index % 8)]
  }

  /** The bitmap Emit writes for one record: all zero, then a bit per slot
      index, in the record's order. */
  function BitmapOf(slots: seq<nat>, taggedSlotsSize: nat): (bits: seq<byte>)
    requires forall k :: 0 <= k < |slots| ==> slots[k] < taggedSlotsSize
    ensures |bits| == BitmapBytes(taggedSlotsSize)
  {
    if |slots| == 0 then seq(BitmapBytes(taggedSlotsSize), _ => 0)
    else SetSlot(BitmapOf(slots[..|slots| - 1], taggedSlotsSize), taggedSlotsSize, slots[|slots| - 1])
  }

  /** Bit r of byte b of the bitmap is set exactly when some slot index sits
      at position 8 * b + r counted from the frame's far end. */
  lemma {:induction false} BitmapMarks(slots: seq<nat>, taggedSlotsSize: nat, b: nat, r: nat)
    requires forall k :: 0 <= k < |slots| ==> slots[k] < taggedSlotsSize
    requires b < BitmapBytes(taggedSlotsSize) && r < 8
    ensures BitSet(BitmapOf(slots, taggedSlotsSize)[b], r)
        <==> exists k :: 0 <= k < |slots| && taggedSlotsSize - 1 - slots[k] == 8 * b + r
  {
    if |slots| == 0 {
      NoBitOfZero(r);
    } else {
      var init := slots[..|slots| - 1];
      var idx := slots[|slots| - 1];
      var before := BitmapOf(init, taggedSlotsSize);
      BitmapMarks(init, taggedSlotsSize, b, r);
      var index := taggedSlotsSize - 1 - idx;
      if index / 8 == b {
        SetBitInByte(before[b], index % 8, r);
      }
      assert forall k :: 0 <= k < |init| ==> init[k] == slots[k];
      if exists k :: 0 <= k < |slots| && taggedSlotsSize - 1 - slots[k] == 8 * b + r {
        var k :| 0 <= k < |slots| && taggedSlotsSize - 1 - slots[k] == 8 * b + r;
        if k == |slots| - 1 {
          assert index == 8 * b + r;
        }
      }
    }
  }

  /** The bitmap of every record. */
  function Bitmaps(es: seq<EntryBuilder>, taggedSlotsSize: nat): (bitmaps: seq<seq<byte>>)
    requires SlotsBelow(es, taggedSlotsSize)
    ensures |bitmaps| == |es|
    ensures forall i :: 0 <= i < |es| ==> bitmaps[i] == BitmapOf(es[i].stackIndexes, taggedSlotsSize)
  {
    seq(|es|, i requires 0 <= i < |es| => BitmapOf(es[i].stackIndexes, taggedSlotsSize))
  }

  /** A table's bytes: the entry count and the configuration word, then the
      rows, then the bitmaps. */
  function Layout(n: nat, c: EntryConfiguration, rows: seq<seq<byte>>, bitmaps: seq<seq<byte>>): seq<byte>
    requires IsValid(c)
  {
    EncodeLE(n % 0x1_0000_0000, 4) + EncodeLE(Pack(c), 4) + Concat(rows) + Concat(bitmaps)
  }

  /** The whole table Emit writes for the records `es`. */
  function EncodeTable(es: seq<EntryBuilder>, taggedSlotsSize: nat): seq<byte>
    requires FieldsFit(es) && SlotsBelow(es, taggedSlotsSize)
    requires IsValid(TableConfiguration(es, taggedSlotsSize))
  {
    var c := TableConfiguration(es, taggedSlotsSize);
    Layout(|es|, c, Rows(es, c), Bitmaps(es, taggedSlotsSize))
  }
}
