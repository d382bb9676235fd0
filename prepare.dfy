/** What Emit does to its records before writing them: RemoveDuplicates,
    then TrimEntries. Both keep the properties the debug checks and the
    encoder rely on. */
module Prepare {
  import opened Bytes
  import opened Entries
  import opened Compaction
  import opened Table
  import opened Encoding
  import opened RoundTrip

  /** What Emit demands of the records it is handed: the order and pairing
      its debug checks enforce, neighbours with the same deopt index
      sharing a trampoline (checked while duplicates are removed), slot indexes below the frame size (checked
      while the bitmaps are built), values that survive the plus one in an
      `int`, and a count that fits the `int` length. */
  predicate Ready(es: seq<EntryBuilder>, taggedSlotsSize: nat)
  {
    && EntriesOrdered(es)
    && NeighboursAgree(es)
    && SlotsBelow(es, taggedSlotsSize)
    && FieldsFit(es)
    && |es| < 0x8000_0000
  }

  /** The records Emit writes: deduplicated, then trimmed. */
  function Prepared(es: seq<EntryBuilder>, taggedSlotsSize: nat): seq<EntryBuilder>
  {
    Trim(Compact(es), taggedSlotsSize).0
  }

  /** The frame size Emit writes with: lowered by the trim. */
  function PreparedSize(es: seq<EntryBuilder>, taggedSlotsSize: nat): nat
  {
    Trim(Compact(es), taggedSlotsSize).1
  }

  /** RemoveDuplicates keeps a list ready: it only drops records. */
  lemma CompactKeepsReady(es: seq<EntryBuilder>, taggedSlotsSize: nat)
    requires Ready(es, taggedSlotsSize)
    ensures Ready(Compact(es), taggedSlotsSize)
  {
    CompactOrdered(es);
    CompactKeepsAgree(es);
    var starts := CompactRuns(es);
    var r := Compact(es);
    forall i | 0 <= i < |r|
      ensures r[i] == es[starts[i]] && starts[i] < |es|
    {
    }
    assert FieldsFit(r);
    assert SlotsBelow(r, taggedSlotsSize);
  }

  /** TrimEntries keeps a list ready, with the lowered frame size: only the
      slot indexes change. */
  lemma TrimKeepsReady(es: seq<EntryBuilder>, taggedSlotsSize: nat)
    requires Ready(es, taggedSlotsSize)
    ensures Ready(Trim(es, taggedSlotsSize).0, Trim(es, taggedSlotsSize).1)
  {
    TrimKeepsBound(es, taggedSlotsSize);
    var t := Trim(es, taggedSlotsSize).0;
    forall i | 0 <= i < |es|
      ensures t[i].pc == es[i].pc && t[i].trampoline == es[i].trampoline
      ensures t[i].deoptIndex == es[i].deoptIndex
    {
      assert t[i].(stackIndexes := es[i].stackIndexes) == es[i];
    }
    assert BuilderPcs(t) == BuilderPcs(es);
    assert BuilderTrampolines(t) == BuilderTrampolines(es);
  }

  /** The records Emit writes are ready for the frame size it writes with. */
  lemma PreparedReady(es: seq<EntryBuilder>, taggedSlotsSize: nat)
    requires Ready(es, taggedSlotsSize)
    ensures Ready(Prepared(es, taggedSlotsSize), PreparedSize(es, taggedSlotsSize))
  {
    CompactKeepsReady(es, taggedSlotsSize);
    TrimKeepsReady(Compact(es), taggedSlotsSize);
  }

  /** Bit r of byte b means the same frame position in the original bitmap
      and in the lowered one, so the two agree on it. */
  lemma SameMark(slots: seq<nat>, lowered: seq<nat>, taggedSlotsSize: nat, m: nat, b: nat, r: nat)
    requires m <= taggedSlotsSize && |lowered| == |slots|
    requires forall k :: 0 <= k < |slots| ==> slots[k] < taggedSlotsSize && lowered[k] + m == slots[k]
    requires b < BitmapBytes(taggedSlotsSize - m) && r < 8
    ensures b < BitmapBytes(taggedSlotsSize)
    ensures BitSet(BitmapOf(lowered, taggedSlotsSize - m)[b], r) <==> BitSet(BitmapOf(slots, taggedSlotsSize)[b], r)
  {
    BitmapMarks(slots, taggedSlotsSize, b, r);
    BitmapMarks(lowered, taggedSlotsSize - m, b, r);
    assert forall k :: 0 <= k < |slots| ==> taggedSlotsSize - m - 1 - lowered[k] == taggedSlotsSize - 1 - slots[k];
  }

  /** No slot at or above m reaches a byte past the lowered bitmap's end. */
  lemma NoMarkBeyond(slots: seq<nat>, taggedSlotsSize: nat, m: nat, b: nat, r: nat)
    requires m <= taggedSlotsSize
    requires forall k :: 0 <= k < |slots| ==> m <= slots[k] < taggedSlotsSize
    requires BitmapBytes(taggedSlotsSize - m) <= b < BitmapBytes(taggedSlotsSize) && r < 8
    ensures !BitSet(BitmapOf(slots, taggedSlotsSize)[b], r)
  {
    BitmapMarks(slots, taggedSlotsSize, b, r);
  }

  /** Lowering every slot index and the frame size by m moves no bit: the
      bitmap of the lowered slots is the front of the original bitmap, and
      the bytes dropped from its end are zero. */
  lemma ShiftedBitmap(slots: seq<nat>, lowered: seq<nat>, taggedSlotsSize: nat, m: nat)
    requires m <= taggedSlotsSize && |lowered| == |slots|
    requires forall k :: 0 <= k < |slots| ==> slots[k] < taggedSlotsSize && lowered[k] + m == slots[k]
    ensures BitmapBytes(taggedSlotsSize - m) <= BitmapBytes(taggedSlotsSize)
    ensures BitmapOf(lowered, taggedSlotsSize - m)
         == BitmapOf(slots, taggedSlotsSize)[..BitmapBytes(taggedSlotsSize - m)]
    ensures forall b :: BitmapBytes(taggedSlotsSize - m) <= b < BitmapBytes(taggedSlotsSize) ==>
      BitmapOf(slots, taggedSlotsSize)[b] == 0
  {
    var n, n' := taggedSlotsSize, taggedSlotsSize - m;
    var whole, part := BitmapOf(slots, n), BitmapOf(lowered, n');
    assert Pow2(8) == 256;
    forall b | 0 <= b < BitmapBytes(n')
      ensures b < |whole| && part[b] == whole[b]
    {
      forall r | 0 <= r < 8
        ensures BitSet(part[b], r) <==> BitSet(whole[b], r)
      {
        SameMark(slots, lowered, n, m, b, r);
      }
      SameBits(part[b], whole[b], 8);
    }
    forall b | BitmapBytes(n') <= b < BitmapBytes(n)
      ensures whole[b] == 0
    {
      forall r | 0 <= r < 8
        ensures BitSet(whole[b], r) <==> BitSet(0, r)
      {
        NoMarkBeyond(slots, n, m, b, r);
        NoBitOfZero(r);
      }
      SameBits(whole[b], 0, 8);
    }
  }

  /** Trim correctness: after TrimEntries every record's bitmap, at the
      lowered frame size, is its original bitmap with only always-zero
      bytes cut from the end; every slot keeps its bit. */
  lemma TrimKeepsBitmaps(es: seq<EntryBuilder>, taggedSlotsSize: nat, i: nat)
    requires SlotsBelow(es, taggedSlotsSize) && i < |es|
    ensures SlotsBelow(Trim(es, taggedSlotsSize).0, Trim(es, taggedSlotsSize).1) && |Trim(es, taggedSlotsSize).0| == |es|
    ensures BitmapBytes(Trim(es, taggedSlotsSize).1) <= BitmapBytes(taggedSlotsSize)
    ensures BitmapOf(Trim(es, taggedSlotsSize).0[i].stackIndexes, Trim(es, taggedSlotsSize).1)
         == BitmapOf(es[i].stackIndexes, taggedSlotsSize)[..BitmapBytes(Trim(es, taggedSlotsSize).1)]
    ensures forall b :: BitmapBytes(Trim(es, taggedSlotsSize).1) <= b < BitmapBytes(taggedSlotsSize) ==>
      BitmapOf(es[i].stackIndexes, taggedSlotsSize)[b] == 0
  {
    TrimKeepsBound(es, taggedSlotsSize);
    var m := TrimAmount(es, taggedSlotsSize);
    assert Trim(es, taggedSlotsSize).0[i].stackIndexes == ShiftedIndexes(es[i].stackIndexes, m)
        && Trim(es, taggedSlotsSize).1 == taggedSlotsSize - m by {
      TrimIs(es, taggedSlotsSize);
    }
    ShiftedBitmap(es[i].stackIndexes, ShiftedIndexes(es[i].stackIndexes, m), taggedSlotsSize, m);
  }
}
