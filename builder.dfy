/** The safepoint table builder: collects one record per safepoint while
    code is generated, patches deopt data into them, compacts them and
    appends the finished table to the assembler's output. */
module Builder {
  import opened Bytes
  import opened Entries
  import opened Lookup
  import opened Compaction
  import opened Table
  import opened Encoding
  import opened Prepare

  /** The assembler, reduced to the bytes it has emitted so far. */
  class Assembler {
    var buffer: seq<byte>

    constructor ()
      ensures buffer == []
    {
      buffer := [];
    }

    /** db: appends one byte. */
    method Db(b: byte)
      modifies this
      ensures buffer == old(buffer) + [b]
    {
      buffer := buffer + [b];
    }

    /** dd: appends a 32-bit word, least significant byte first. */
    method Dd(w: nat)
      requires w < 0x1_0000_0000
      modifies this
      ensures buffer == old(buffer) + EncodeLE(w, 4)
    {
      buffer := buffer + EncodeLE(w, 4);
    }
  }

  /** emit_bytes: appends the `bytes` low bytes of `value`, least
      significant first, one db per byte; the value must fit. */
  method EmitBytes(asm: Assembler, value: nat, bytes: nat)
    requires value < Pow256(bytes)
    modifies asm
    ensures asm.buffer == old(asm.buffer) + EncodeLE(value, bytes)
  {
    var v, k := value, bytes;
    while k > 0
      invariant asm.buffer + EncodeLE(v, k) == old(asm.buffer) + EncodeLE(value, bytes)
    {
      asm.Db(v % 256);
      v, k := v / 256, k - 1;
    }
  }

  /** The debug checks of Emit have passed for the first i records: pcs
      increase, present trampolines increase and lie beyond the last pc,
      and every record has both a trampoline and a deopt index or neither. */
  predicate CheckedUpTo(es: seq<EntryBuilder>, i: nat)
    requires i <= |es|
  {
    && (forall a, b :: 0 <= a < b < i ==> es[a].pc < es[b].pc)
    && TrampolinesIncreaseUpTo(es, i)
    && (forall a :: 0 <= a < i && es[a].trampoline != NoTrampolinePc ==> es[|es| - 1].pc < es[a].trampoline)
    && (forall a :: 0 <= a < i ==> Paired(es[a]))
  }

  /** The present trampolines among the first i records increase. */
  predicate TrampolinesIncreaseUpTo(es: seq<EntryBuilder>, i: nat)
    requires i <= |es|
  {
    forall a, b :: 0 <= a < b < i && es[a].trampoline != NoTrampolinePc && es[b].trampoline != NoTrampolinePc ==>
      es[a].trampoline < es[b].trampoline
  }

  /** Checking every record is checking the whole table's order. */
  lemma CheckedAll(es: seq<EntryBuilder>)
    ensures CheckedUpTo(es, |es|) <==> EntriesOrdered(es)
  {
    var pcs, trampolines := BuilderPcs(es), BuilderTrampolines(es);
    assert forall a :: 0 <= a < |es| ==> pcs[a] == es[a].pc && trampolines[a] == es[a].trampoline;
  }

  /** The builder's changes to one record: the deopt data patched in. */
  function Patched(e: EntryBuilder, trampoline: MaybeInt, deoptIndex: MaybeInt): EntryBuilder
  {
    e.(trampoline := trampoline, deoptIndex := deoptIndex)
  }

  /** Patching deopt data moves no pc and leaves the patched record paired. */
  lemma PatchKeepsPcs(es: seq<EntryBuilder>, index: nat, trampoline: MaybeInt, deoptIndex: MaybeInt)
    requires index < |es| && trampoline != NoTrampolinePc && deoptIndex != NoDeoptIndex
    ensures BuilderPcs(es[index := Patched(es[index], trampoline, deoptIndex)]) == BuilderPcs(es)
    ensures Paired(es[index := Patched(es[index], trampoline, deoptIndex)][index])
  {
    var r := es[index := Patched(es[index], trampoline, deoptIndex)];
    assert forall a :: 0 <= a < |es| ==> BuilderPcs(r)[a] == BuilderPcs(es)[a];
  }

  /** Patching keeps the debug checks passing when the new trampoline lies
      beyond the last pc, after the trampolines of the records before the
      patched one and before those of the records after it. */
  lemma PatchKeepsOrdered(es: seq<EntryBuilder>, index: nat, trampoline: MaybeInt, deoptIndex: MaybeInt)
    requires EntriesOrdered(es) && index < |es|
    requires trampoline != NoTrampolinePc && deoptIndex != NoDeoptIndex
    requires es[|es| - 1].pc < trampoline
    requires forall j :: 0 <= j < index && es[j].trampoline != NoTrampolinePc ==> es[j].trampoline < trampoline
    requires forall j :: index < j < |es| && es[j].trampoline != NoTrampolinePc ==> trampoline < es[j].trampoline
    ensures EntriesOrdered(es[index := Patched(es[index], trampoline, deoptIndex)])
  {
    var r := es[index := Patched(es[index], trampoline, deoptIndex)];
    PatchKeepsPcs(es, index, trampoline, deoptIndex);
    var ts, rs := BuilderTrampolines(es), BuilderTrampolines(r);
    assert rs == ts[index := trampoline];
    forall a, b | 0 <= a < b < |rs| && rs[a] != NoTrampolinePc && rs[b] != NoTrampolinePc
      ensures rs[a] < rs[b]
    {
      if a != index && b != index {
        assert rs[a] == ts[a] && rs[b] == ts[b];
      } else if a == index {
        assert rs[b] == es[b].trampoline;
      } else {
        assert rs[a] == es[a].trampoline;
      }
    }
    assert BuilderPcs(r)[|r| - 1] == es[|es| - 1].pc;
    forall i | 0 <= i < |rs| && rs[i] != NoTrampolinePc
      ensures BuilderPcs(r)[|r| - 1] < rs[i]
    {
      if i != index {
        assert rs[i] == ts[i];
      }
    }
    assert forall i :: 0 <= i < |r| && i != index ==> r[i] == es[i];
  }

  class SafepointTableBuilder {
    var entries: seq<EntryBuilder>

    constructor ()
      ensures entries == []
    {
      entries := [];
    }

    /** DefineSafepoint: appends a record for the safepoint at `pc`, without
        deopt data, with the tagged registers and stack slots the caller
        records through the returned handle. */
    method DefineSafepoint(pc: nat, registerIndexes: RegisterMask, stackIndexes: seq<nat>)
      modifies this
      ensures entries == old(entries) + [EntryBuilder(pc, NoTrampolinePc, NoDeoptIndex, registerIndexes, stackIndexes)]
    {
      entries := entries + [EntryBuilder(pc, NoTrampolinePc, NoDeoptIndex, registerIndexes, stackIndexes)];
    }

    /** UpdateDeoptimizationInfo: patches the trampoline and the deopt index
        into the first record at or after `start` whose pc is `pc`, and
        returns that record's index. */
    method UpdateDeoptimizationInfo(pc: int, trampoline: MaybeInt, start: nat, deoptIndex: MaybeInt) returns (index: nat)
      requires trampoline != NoTrampolinePc && deoptIndex != NoDeoptIndex
      requires exists j :: start <= j < |entries| && entries[j].pc == pc
      modifies this
      ensures start <= index < |old(entries)| && old(entries)[index].pc == pc
      ensures forall j :: start <= j < index ==> old(entries)[j].pc != pc
      ensures entries == old(entries)[index := Patched(old(entries)[index], trampoline, deoptIndex)]
    {
      index := start;
      while entries[index].pc != pc
        invariant start <= index < |entries|
        invariant forall j :: start <= j < index ==> entries[j].pc != pc
        invariant exists j :: index <= j < |entries| && entries[j].pc == pc
        decreases |entries| - index
      {
        index := index + 1;
      }
      entries := entries[index := Patched(entries[index], trampoline, deoptIndex)];
    }

    /** The debug block of Emit: the records are checked one by one against
        the last pc and the last trampoline seen; a failed check aborts. */
    method CheckOrdering() returns (ok: bool)
      ensures ok == EntriesOrdered(entries)
    {
      var es := entries;
      var lastPc := -1;
      var lastTrampoline := -1;
      var i := 0;
      while i < |es|
        invariant i <= |es| && CheckedUpTo(es, i)
        invariant lastPc == LastPc(es, i) && lastTrampoline == LastTrampoline(es, i)
      {
        var entry := es[i];
        CheckStep(es, i, lastPc, lastTrampoline);
        // Pcs increase; present trampolines increase and lie beyond the
        // last pc; trampoline and deopt index come together.
        var passed := lastPc < entry.pc
          && (entry.trampoline != NoTrampolinePc ==> lastTrampoline < entry.trampoline && es[|es| - 1].pc < entry.trampoline)
          && (entry.trampoline == NoTrampolinePc) == (entry.deoptIndex == NoDeoptIndex);
        assert passed == Passes(entry, lastPc, lastTrampoline, es[|es| - 1].pc);
        if !passed {
          return false;
        }
        lastPc := entry.pc;
        if entry.trampoline != NoTrampolinePc {
          lastTrampoline := entry.trampoline;
        }
        i := i + 1;
      }
      CheckedAll(es);
      return true;
    }

    /** RemoveDuplicates: keeps the first record of every run of records
        identical to the run's first except for the pc, moving the kept
        records to the front and cutting the list behind them. */
    method RemoveDuplicates()
      modifies this
      ensures entries == Compact(old(entries))
    {
      if |entries| < 2 {
        CompactShort(entries);
        return;
      }
      ghost var original := entries;
      var es := entries;
      var n := |es|;
      var remaining := 0;
      var it := 0;
      while it != n
        invariant |es| == n && remaining <= it <= n
        invariant forall j :: it <= j < n ==> es[j] == original[j]
        invariant es[..remaining] + Compact(original[it..]) == Compact(original)
        decreases n - it
      {
        es, it := KeepRun(es, remaining, it, original);
        remaining := remaining + 1;
      }
      entries := es[..remaining];
    }

    /** TrimEntries: lowers every slot index, and the frame size, by the
        least slot index in use; the frame size is passed in and the new one
        returned. */
    method TrimEntries(taggedSlotsSize: nat) returns (newSize: nat)
      requires SlotsBelow(entries, taggedSlotsSize)
      modifies this
      ensures (entries, newSize) == Trim(old(entries), taggedSlotsSize)
    {
      var minIndex := LeastSlotIndex(taggedSlotsSize);
      TrimAmountIsLeast(entries, taggedSlotsSize);
      if minIndex == 0 {
        TrimEarlyExit(entries, taggedSlotsSize);
        return taggedSlotsSize;
      }
      forall a, b | 0 <= a < |entries| && 0 <= b < |entries[a].stackIndexes|
        ensures minIndex <= entries[a].stackIndexes[b]
      {
        AllSlotsHolds(entries, entries[a].stackIndexes[b]);
      }
      newSize := taggedSlotsSize - minIndex;
      ShiftSlotIndexes(minIndex);
    }

    /** The scan of TrimEntries: the least slot index in use, or the frame
        size when none is; 0 when the frame has no tagged slots or slot 0 is
        in use, where the scan stops early. */
    method LeastSlotIndex(taggedSlotsSize: nat) returns (minIndex: nat)
      ensures minIndex == TrimAmount(entries, taggedSlotsSize)
    {
      var es := entries;
      minIndex := taggedSlotsSize;
      if minIndex == 0 {
        return;
      }
      var i := 0;
      while i < |es|
        invariant i <= |es| && 0 < minIndex
        invariant minIndex == MinOr(AllSlots(es[..i]), taggedSlotsSize)
        invariant 0 !in AllSlots(es[..i])
      {
        var slots := es[i].stackIndexes;
        AllSlotsSnoc(es, i);
        var k := 0;
        assert AllSlots(es[..i]) + slots[..k] == AllSlots(es[..i]);
        while k < |slots|
          invariant k <= |slots| && 0 < minIndex
          invariant minIndex == MinOr(AllSlots(es[..i]) + slots[..k], taggedSlotsSize)
          invariant 0 !in AllSlots(es[..i]) + slots[..k]
        {
          var idx := slots[k];
          MinOrStep(AllSlots(es[..i]), slots, k, taggedSlotsSize);
          if idx < minIndex {
            if idx == 0 {
              AllSlotsHolds(es, 0);
              return 0;
            }
            minIndex := idx;
          }
          k := k + 1;
        }
        assert slots[..k] == slots;
        i := i + 1;
      }
      assert es[..i] == es;
    }

    /** The shift of TrimEntries: every slot index lowered by m, in place. */
    method ShiftSlotIndexes(m: nat)
      requires forall a, b :: 0 <= a < |entries| && 0 <= b < |entries[a].stackIndexes| ==> m <= entries[a].stackIndexes[b]
      modifies this
      ensures entries == ShiftSlots(old(entries), m)
    {
      ghost var original := entries;
      var es := entries;
      var i := 0;
      while i < |es|
        invariant i <= |es| == |original|
        invariant forall j :: 0 <= j < i ==> es[j] == ShiftSlots(original, m)[j]
        invariant forall j :: i <= j < |original| ==> es[j] == original[j]
      {
        var slots := es[i].stackIndexes;
        var k := 0;
        while k < |slots|
          invariant k <= |slots| == |original[i].stackIndexes|
          invariant forall l :: 0 <= l < k ==> slots[l] == original[i].stackIndexes[l] - m
          invariant forall l :: k <= l < |slots| ==> slots[l] == original[i].stackIndexes[l]
        {
          slots := slots[k := slots[k] - m];
          k := k + 1;
        }
        assert slots == ShiftSlots(original, m)[i].stackIndexes;
        es := es[i := es[i].(stackIndexes := slots)];
        i := i + 1;
      }
      assert es == ShiftSlots(original, m);
      entries := es;
    }

    /** Emit: removes duplicates, trims the frame, derives the entry
        configuration and appends the header, the rows and the bitmaps to
        the assembler's output. A configuration the configuration word cannot
        hold is a fatal error; the model then returns false and has emitted
        nothing. */
    method Emit(asm: Assembler, taggedSlotsSize: nat) returns (ok: bool)
      requires Ready(entries, taggedSlotsSize)
      modifies this, asm
      ensures entries == Prepared(old(entries), taggedSlotsSize)
      ensures Ready(entries, PreparedSize(old(entries), taggedSlotsSize))
      ensures ok == IsValid(TableConfiguration(entries, PreparedSize(old(entries), taggedSlotsSize)))
      ensures ok ==> asm.buffer == old(asm.buffer) + EncodeTable(entries, PreparedSize(old(entries), taggedSlotsSize))
      ensures !ok ==> asm.buffer == old(asm.buffer)
    {
      var size := PrepareEntries(taggedSlotsSize);
      ok := EmitTable(asm, size);
    }

    /** The first two steps of Emit: RemoveDuplicates, then TrimEntries. */
    method PrepareEntries(taggedSlotsSize: nat) returns (newSize: nat)
      requires Ready(entries, taggedSlotsSize)
      modifies this
      ensures entries == Prepared(old(entries), taggedSlotsSize)
      ensures newSize == PreparedSize(old(entries), taggedSlotsSize)
      ensures Ready(entries, newSize)
    {
      ghost var original := entries;
      RemoveDuplicates();
      CompactKeepsReady(original, taggedSlotsSize);
      newSize := TrimEntries(taggedSlotsSize);
      TrimKeepsReady(Compact(original), taggedSlotsSize);
    }

    /** The rest of Emit: the configuration, its check, the header, the rows
        and the bitmaps. */
    method EmitTable(asm: Assembler, taggedSlotsSize: nat) returns (ok: bool)
      requires Ready(entries, taggedSlotsSize)
      modifies asm
      ensures ok == IsValid(TableConfiguration(entries, taggedSlotsSize))
      ensures ok ==> asm.buffer == old(asm.buffer) + EncodeTable(entries, taggedSlotsSize)
      ensures !ok ==> asm.buffer == old(asm.buffer)
    {
      var c := ComputeConfiguration(taggedSlotsSize);
      if !IsValid(c) {
        return false;
      }
      var es := entries;
      ghost var start := asm.buffer;
      asm.Dd(|es|);
      asm.Dd(Pack(c));
      EmitRows(asm, es, c);
      EmitBitmaps(asm, es, taggedSlotsSize);
      SmallCount(|es|);
      Append4(start, EncodeLE(|es|, 4), EncodeLE(Pack(c), 4), Concat(Rows(es, c)), Concat(Bitmaps(es, taggedSlotsSize)));
      ok := true;
    }

    /** The sizes Emit derives: the union of the register masks and the
        largest pc, trampoline and deopt index, accumulated over the records. */
    method ComputeConfiguration(taggedSlotsSize: nat) returns (c: EntryConfiguration)
      requires FieldsFit(entries)
      ensures c == TableConfiguration(entries, taggedSlotsSize)
    {
      var es := entries;
      var used, maxPc, maxDeopt := 0, -1, -1;
      var i := 0;
      while i < |es|
        invariant i <= |es|
        invariant used == UsedRegisters(es[..i])
        invariant maxPc == MaxPc(es[..i]) && maxDeopt == MaxDeoptIndex(es[..i])
      {
        var e := es[i];
        var top := if e.pc < e.trampoline then e.trampoline else e.pc;
        var used', maxPc', maxDeopt' := BitOr(used, e.registerIndexes), maxPc, maxDeopt;
        if maxPc < top {
          maxPc' := top;
        }
        if maxDeopt < e.deoptIndex {
          maxDeopt' := e.deoptIndex;
        }
        AccumulateStep(es, i, used, maxPc, maxDeopt, used', maxPc', maxDeopt');
        used, maxPc, maxDeopt := used', maxPc', maxDeopt';
        i := i + 1;
      }
      c := EntryConfiguration(maxDeopt != NoDeoptIndex, ValueToBytes(used), ValueToBytes(maxPc + 1),
        ValueToBytes(maxDeopt + 1), (taggedSlotsSize + 7) / 8);
      ConfigurationOf(es, taggedSlotsSize, used, maxPc, maxDeopt, c);
    }
  }

  /** One more record folded into the union of the register masks and the
      largest pc, trampoline and deopt index. */
  lemma AccumulateStep(es: seq<EntryBuilder>, i: nat, used: nat, maxPc: int, maxDeopt: int, used': nat, maxPc': int, maxDeopt': int)
    requires i < |es|
    requires used == UsedRegisters(es[..i]) && maxPc == MaxPc(es[..i]) && maxDeopt == MaxDeoptIndex(es[..i])
    requires used' == BitOr(used, es[i].registerIndexes)
    requires var top := if es[i].pc < es[i].trampoline then es[i].trampoline else es[i].pc;
      maxPc' == if maxPc < top then top else maxPc
    requires maxDeopt' == if maxDeopt < es[i].deoptIndex then es[i].deoptIndex else maxDeopt
    ensures used' == UsedRegisters(es[..i + 1])
    ensures maxPc' == MaxPc(es[..i + 1]) && maxDeopt' == MaxDeoptIndex(es[..i + 1])
  {
    assert es[..i + 1][..i] == es[..i];
  }

  /** The configuration built from the accumulated maxima of all records
      is the table's. */
  lemma ConfigurationOf(es: seq<EntryBuilder>, taggedSlotsSize: nat, used: nat, maxPc: int, maxDeopt: int, c: EntryConfiguration)
    requires FieldsFit(es)
    requires used == UsedRegisters(es[..|es|]) && maxPc == MaxPc(es[..|es|]) && maxDeopt == MaxDeoptIndex(es[..|es|])
    requires c == EntryConfiguration(maxDeopt != NoDeoptIndex, ValueToBytes(used), ValueToBytes(maxPc + 1),
      ValueToBytes(maxDeopt + 1), (taggedSlotsSize + 7) / 8)
    ensures c == TableConfiguration(es, taggedSlotsSize)
  {
    assert es[..|es|] == es;
  }

  /** The rows of all records, in order. */
  method EmitRows(asm: Assembler, es: seq<EntryBuilder>, c: EntryConfiguration)
    requires forall i :: 0 <= i < |es| ==> FitsRow(es[i], c)
    modifies asm
    ensures asm.buffer == old(asm.buffer) + Concat(Rows(es, c))
  {
    var i := 0;
    while i < |es|
      invariant i <= |es|
      invariant asm.buffer == old(asm.buffer) + Concat(Rows(es, c)[..i])
    {
      EmitRow(asm, es[i], c);
      ConcatSnoc(Rows(es, c), i);
      i := i + 1;
    }
    assert Rows(es, c)[..i] == Rows(es, c);
  }

  /** The slot bitmaps of all records, in order, built one at a time in a
      buffer of the bitmap's width. */
  method EmitBitmaps(asm: Assembler, es: seq<EntryBuilder>, taggedSlotsSize: nat)
    requires SlotsBelow(es, taggedSlotsSize)
    modifies asm
    ensures asm.buffer == old(asm.buffer) + Concat(Bitmaps(es, taggedSlotsSize))
  {
    var bits := new byte[BitmapBytes(taggedSlotsSize)];
    ghost var start := asm.buffer;
    var i := 0;
    while i < |es|
      invariant i <= |es| && bits.Length == BitmapBytes(taggedSlotsSize)
      invariant asm.buffer == start + Concat(Bitmaps(es, taggedSlotsSize)[..i])
    {
      EmitBitmap(asm, bits, es, i, taggedSlotsSize, start);
      i := i + 1;
    }
    assert Bitmaps(es, taggedSlotsSize)[..i] == Bitmaps(es, taggedSlotsSize);
  }

  /** Every field of e fits the width the configuration gives it. */
  predicate FitsRow(e: EntryBuilder, c: EntryConfiguration)
  {
    && e.pc < Pow256(c.pcSize)
    && e.deoptIndex + 1 < Pow256(c.deoptIndexSize)
    && e.trampoline + 1 < Pow256(c.pcSize)
    && e.registerIndexes < Pow256(c.registerIndexesSize)
  }

  /** One record's row: pc, then deopt index and trampoline (each plus one)
      when the table has deopt data, then the register mask. */
  method EmitRow(asm: Assembler, e: EntryBuilder, c: EntryConfiguration)
    requires FitsRow(e, c)
    modifies asm
    ensures asm.buffer == old(asm.buffer) + EncodeEntry(e, c)
  {
    ghost var start := asm.buffer;
    EmitBytes(asm, e.pc, c.pcSize);
    ghost var middle: seq<byte> := [];
    if c.hasDeoptData {
      EmitBytes(asm, e.deoptIndex + 1, c.deoptIndexSize);
      EmitBytes(asm, e.trampoline + 1, c.pcSize);
      middle := EncodeLE(e.deoptIndex + 1, c.deoptIndexSize) + EncodeLE(e.trampoline + 1, c.pcSize);
    }
    EmitBytes(asm, e.registerIndexes, c.registerIndexesSize);
    Append4(start, EncodeLE(e.pc, c.pcSize), middle, EncodeLE(e.registerIndexes, c.registerIndexesSize), []);
  }

  /** Clears the bitmap buffer, then sets the bit of every slot index. */
  method FillBitmap(bits: array<byte>, slots: seq<nat>, taggedSlotsSize: nat)
    requires bits.Length == BitmapBytes(taggedSlotsSize)
    requires forall k :: 0 <= k < |slots| ==> slots[k] < taggedSlotsSize
    modifies bits
    ensures bits[..] == BitmapOf(slots, taggedSlotsSize)
  {
    forall j | 0 <= j < bits.Length {
      bits[j] := 0;
    }
    assert bits[..] == BitmapOf(slots[..0], taggedSlotsSize);
    var k := 0;
    while k < |slots|
      invariant k <= |slots|
      invariant bits[..] == BitmapOf(slots[..k], taggedSlotsSize)
    {
      var index := taggedSlotsSize - 1 - slots[k];
      SetBitInByte(bits[index / 8], index % 8, 0);
      bits[index / 8] := SetBit(bits[index / 8], index % 8);
      assert slots[..k + 1][..k] == slots[..k];
      k := k + 1;
    }
    assert slots[..k] == slots;
  }

  /** Record i's bitmap: built in the buffer, then appended after the
      bitmaps of the records before it. */
  method EmitBitmap(asm: Assembler, bits: array<byte>, es: seq<EntryBuilder>, i: nat, taggedSlotsSize: nat, ghost start: seq<byte>)
    requires bits.Length == BitmapBytes(taggedSlotsSize)
    requires SlotsBelow(es, taggedSlotsSize) && i < |es|
    requires asm.buffer == start + Concat(Bitmaps(es, taggedSlotsSize)[..i])
    modifies asm, bits
    ensures asm.buffer == start + Concat(Bitmaps(es, taggedSlotsSize)[..i + 1])
  {
    FillBitmap(bits, es[i].stackIndexes, taggedSlotsSize);
    EmitArray(asm, bits);
    ConcatSnoc(Bitmaps(es, taggedSlotsSize), i);
  }

  /** Appends the bytes of the buffer, one db each. */
  method EmitArray(asm: Assembler, bits: array<byte>)
    modifies asm
    ensures asm.buffer == old(asm.buffer) + bits[..]
  {
    var j := 0;
    while j < bits.Length
      invariant j <= bits.Length
      invariant asm.buffer == old(asm.buffer) + bits[..j]
    {
      asm.Db(bits[j]);
      j := j + 1;
    }
  }

  lemma SmallCount(n: nat)
    requires n < 0x8000_0000
    ensures n % 0x1_0000_0000 == n
  {
  }

  lemma Append4<T>(s: seq<T>, a: seq<T>, b: seq<T>, c: seq<T>, d: seq<T>)
    ensures (((s + a) + b) + c) + d == s + (a + b + c + d)
  {
  }

  /** The pc last seen by the debug checks after i records, or -1. */
  function LastPc(es: seq<EntryBuilder>, i: nat): int
    requires i <= |es|
  {
    if i == 0 then -1 else es[i - 1].pc
  }

  /** The debug checks on one record, given the last pc and trampoline seen
      and the pc of the list's last record. */
  predicate Passes(e: EntryBuilder, lastPc: int, lastTrampoline: int, finalPc: int)
  {
    && lastPc < e.pc
    && (e.trampoline != NoTrampolinePc ==> lastTrampoline < e.trampoline && finalPc < e.trampoline)
    && Paired(e)
  }

  /** The trampoline last seen by the debug checks after i records: the last
      present one, or -1. */
  function LastTrampoline(es: seq<EntryBuilder>, i: nat): int
    requires i <= |es|
  {
    var c := LastPresent(BuilderTrampolines(es), i);
    if c == -1 then -1 else es[c].trampoline
  }

  /** One step of the debug checks: record i passes exactly when the first
      i + 1 records are in order, and a failure means the table is not. */
  lemma CheckStep(es: seq<EntryBuilder>, i: nat, lastPc: int, lastTrampoline: int)
    requires i < |es| && CheckedUpTo(es, i)
    requires lastPc == LastPc(es, i)
    requires lastTrampoline == LastTrampoline(es, i)
    ensures CheckedUpTo(es, i + 1) <==> Passes(es[i], lastPc, lastTrampoline, es[|es| - 1].pc)
    ensures !CheckedUpTo(es, i + 1) ==> !EntriesOrdered(es)
    ensures LastPc(es, i + 1) == es[i].pc
    ensures LastTrampoline(es, i + 1) == if es[i].trampoline != NoTrampolinePc then es[i].trampoline else lastTrampoline
  {
    PcStep(es, i, lastPc);
    TrampolineStep(es, i, lastTrampoline);
    CheckedAll(es);
    var trampolines := BuilderTrampolines(es);
    assert trampolines[i] == es[i].trampoline;
  }

  /** The pc check against the last pc seen extends pc order by one record. */
  lemma PcStep(es: seq<EntryBuilder>, i: nat, lastPc: int)
    requires i < |es|
    requires forall a, b :: 0 <= a < b < i ==> es[a].pc < es[b].pc
    requires lastPc == LastPc(es, i)
    ensures (forall a, b :: 0 <= a < b < i + 1 ==> es[a].pc < es[b].pc) <==> lastPc < es[i].pc
  {
    if i > 0 {
      forall a | 0 <= a < i
        ensures es[a].pc <= es[i - 1].pc
      {
        if a < i - 1 {
          assert es[a].pc < es[i - 1].pc;
        }
      }
    }
  }

  /** The trampoline check against the last trampoline seen extends
      trampoline order by one record. */
  lemma TrampolineStep(es: seq<EntryBuilder>, i: nat, lastTrampoline: int)
    requires i < |es|
    requires TrampolinesIncreaseUpTo(es, i)
    requires lastTrampoline == LastTrampoline(es, i)
    ensures TrampolinesIncreaseUpTo(es, i + 1) <==> (es[i].trampoline != NoTrampolinePc ==> lastTrampoline < es[i].trampoline)
  {
    var trampolines := BuilderTrampolines(es);
    var c := LastPresent(trampolines, i);
    assert forall a :: 0 <= a < |es| ==> trampolines[a] == es[a].trampoline;
    if c != -1 {
      forall a | 0 <= a < i && es[a].trampoline != NoTrampolinePc
        ensures es[a].trampoline <= es[c].trampoline
      {
        assert a <= c;
        if a < c {
          assert es[a].trampoline < es[c].trampoline;
        }
      }
    }
  }

  /** A run is as long as the scan that finds its end says. */
  lemma {:induction false} RunLengthIs(head: EntryBuilder, s: seq<EntryBuilder>, n: nat)
    requires n <= |s|
    requires forall j :: 0 <= j < n ==> IdenticalExceptForPc(s[j], head)
    requires n < |s| ==> !IdenticalExceptForPc(s[n], head)
    ensures RunLength(head, s) == n
  {
    if n > 0 {
      assert forall j :: 0 <= j < n - 1 ==> s[1..][j] == s[j + 1];
      RunLengthIs(head, s[1..], n - 1);
    }
  }

  /** A record run found by scanning from `head` ends where the compacted
      list's first run ends. */
  lemma RunEndAt(es: seq<EntryBuilder>, head: nat, it: nat)
    requires head < it <= |es|
    requires forall j :: head < j < it ==> IdenticalExceptForPc(es[j], es[head])
    requires it == |es| || !IdenticalExceptForPc(es[it], es[head])
    ensures it == head + FirstRunEnd(es[head..])
    ensures Compact(es[head..]) == [es[head]] + Compact(es[it..])
  {
    var s := es[head..];
    var n := it - head;
    forall j | 0 <= j < n - 1
      ensures IdenticalExceptForPc(s[1..][j], s[0])
    {
      assert s[1..][j] == es[head + 1 + j];
    }
    if n < |s| {
      assert s[1..][n - 1] == es[it];
    }
    RunLengthIs(s[0], s[1..], n - 1);
    assert s[n..] == es[it..];
  }

  /** One turn of RemoveDuplicates' loop: record `it` is copied down to
      slot `remaining`, then `it` moves past the records identical to it. */
  method KeepRun(es: seq<EntryBuilder>, remaining: nat, it: nat, ghost original: seq<EntryBuilder>) returns (es': seq<EntryBuilder>, it': nat)
    requires |es| == |original| && remaining <= it < |es|
    requires forall j :: it <= j < |es| ==> es[j] == original[j]
    requires es[..remaining] + Compact(original[it..]) == Compact(original)
    ensures |es'| == |original| && it < it' <= |es'|
    ensures forall j :: it' <= j < |es'| ==> es'[j] == original[j]
    ensures es'[..remaining + 1] + Compact(original[it'..]) == Compact(original)
  {
    if remaining != it {
      es' := es[remaining := es[it]];
    } else {
      es' := es;
      assert es' == es[remaining := original[it]];
    }
    it' := SkipRun(es', es'[remaining], it + 1);
    KeepStep(original, es, es', remaining, it, it');
  }

  /** The do-while of RemoveDuplicates: from `from` on, skips the records
      identical to `pivot` except for the pc. */
  method SkipRun(es: seq<EntryBuilder>, pivot: EntryBuilder, from: nat) returns (it: nat)
    requires from <= |es|
    ensures from <= it <= |es|
    ensures forall j :: from <= j < it ==> IdenticalExceptForPc(es[j], pivot)
    ensures it == |es| || !IdenticalExceptForPc(es[it], pivot)
  {
    it := from;
    while it != |es| && IdenticalExceptForPc(es[it], pivot)
      invariant from <= it <= |es|
      invariant forall j :: from <= j < it ==> IdenticalExceptForPc(es[j], pivot)
      decreases |es| - it
    {
      it := it + 1;
    }
  }

  /** One pass of RemoveDuplicates' outer loop: the first record of the run
      at `head` is copied to slot `remaining`, the run is skipped, and the
      compaction goes on after it. */
  lemma KeepStep(original: seq<EntryBuilder>, before: seq<EntryBuilder>, es: seq<EntryBuilder>, remaining: nat, head: nat, it: nat)
    requires |before| == |original| && remaining <= head < it <= |original|
    requires forall j :: head <= j < |original| ==> before[j] == original[j]
    requires before[..remaining] + Compact(original[head..]) == Compact(original)
    requires es == before[remaining := original[head]]
    requires forall j :: head < j < it ==> IdenticalExceptForPc(es[j], es[remaining])
    requires it == |es| || !IdenticalExceptForPc(es[it], es[remaining])
    ensures |es| == |original|
    ensures forall j :: it <= j < |original| ==> es[j] == original[j]
    ensures es[..remaining + 1] + Compact(original[it..]) == Compact(original)
  {
    CopyStep(original, before, es, remaining, head, it);
    RunEndAt(original, head, it);
    Regroup(before[..remaining], original[head], Compact(original[head..]), Compact(original[it..]), Compact(original));
  }

  /** The records behind the copied one are still the original ones, and
      the run read through them is the original run. */
  lemma CopyStep(original: seq<EntryBuilder>, before: seq<EntryBuilder>, es: seq<EntryBuilder>, remaining: nat, head: nat, it: nat)
    requires |before| == |original| && remaining <= head < it <= |original|
    requires forall j :: head <= j < |original| ==> before[j] == original[j]
    requires es == before[remaining := original[head]]
    requires forall j :: head < j < it ==> IdenticalExceptForPc(es[j], es[remaining])
    requires it == |es| || !IdenticalExceptForPc(es[it], es[remaining])
    ensures |es| == |original| && es[..remaining + 1] == before[..remaining] + [original[head]]
    ensures forall j :: it <= j < |original| ==> es[j] == original[j]
    ensures forall j :: head < j < it ==> IdenticalExceptForPc(original[j], original[head])
    ensures it == |original| || !IdenticalExceptForPc(original[it], original[head])
  {
    WriteThenCut(before, remaining, original[head]);
    assert es[remaining] == original[head];
    forall j | head < j < it
      ensures IdenticalExceptForPc(original[j], original[head])
    {
      assert es[j] == original[j];
    }
  }

  /** Writing x at index r, then cutting behind it. */
  lemma WriteThenCut<T>(s: seq<T>, r: nat, x: T)
    requires r < |s|
    ensures s[r := x][..r + 1] == s[..r] + [x]
  {
  }

  /** Moving one element from the front of the rest to the end of the prefix. */
  lemma Regroup<T>(kept: seq<T>, x: T, a: seq<T>, b: seq<T>, whole: seq<T>)
    requires kept + a == whole && a == [x] + b
    ensures (kept + [x]) + b == whole
  {
  }

  /** The slot indexes of one more record. */
  lemma AllSlotsSnoc(es: seq<EntryBuilder>, i: nat)
    requires i < |es|
    ensures AllSlots(es[..i + 1]) == AllSlots(es[..i]) + es[i].stackIndexes
  {
    assert es[..i + 1][..i] == es[..i];
  }

  /** The running minimum after one more slot index of the current record. */
  lemma MinOrStep(before: seq<nat>, slots: seq<nat>, k: nat, d: nat)
    requires k < |slots|
    ensures before + slots[..k + 1] == (before + slots[..k]) + [slots[k]]
    ensures MinOr(before + slots[..k + 1], d) == if slots[k] < MinOr(before + slots[..k], d) then slots[k] else MinOr(before + slots[..k], d)
  {
    assert slots[..k + 1] == slots[..k] + [slots[k]];
    var s := before + slots[..k];
    assert (s + [slots[k]])[..|s|] == s;
  }
}
