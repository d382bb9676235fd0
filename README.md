# Safepoint table: builder and reader

A model of V8's safepoint table (`deps/v8/src/codegen/safepoint-table.cc`).
While code is generated, the **builder** records one entry per safepoint:
- its pc;
- an optional trampoline pc and deoptimization index, patched in later;
- a mask of tagged registers;
- the list of tagged stack slots.

`Emit` then transforms and writes the records:
- It collapses runs of records that are identical except for the pc (`RemoveDuplicates`).
- It shifts the slot indexes down by the smallest one in use (`TrimEntries`).
- It derives a per-table entry configuration: which fields are present and each field's width in bytes.
- It appends a table to the assembler's output: a two-word header, one fixed-width little-endian row per entry, and one slot bitmap per entry.

The **reader** opens those bytes and answers two lookups:
- `find_return_pc` maps a pc or trampoline offset back to its safepoint's pc.
- `FindEntry` gives trampolines precedence, then falls back to a floor match on the pc.

Modules:

- `Bytes` (bytes.dfy):
  - bytes as integers 0..255;
  - `value_to_bytes`;
  - little-endian encoding (the reader decodes with `Table.ReadField`);
  - the bit arithmetic of register masks and bitmaps.
- `Entries` (entries.dfy):
  - the builder's record `EntryBuilder`;
  - the decoded `SafepointEntry`;
  - the -1 sentinels;
  - the identical-except-pc predicate;
  - the ordering the debug checks of `Emit` enforce.
- `Lookup` (lookup.dfy): what the two lookups return, as functions over the decoded pc and trampoline columns.
- `Compaction` (compaction.dfy):
  - `RemoveDuplicates` as the function `Compact`;
  - `TrimEntries` as the function `Trim`;
  - their properties.
- `Table` (table.dfy):
  - the configuration word;
  - the reader, a view over the table bytes;
  - its decoding of entries;
  - the two lookups as methods with the source's loops.
- `Encoding` (encoding.dfy): the bytes `Emit` writes for a list of records. The builder's emission methods are proved against these functions.
- `RoundTrip` (roundtrip.dfy): the reader decodes what the builder wrote, and the lookups on an emitted table answer as intended.
- `Prepare` (prepare.dfy): deduplication and trimming keep what `Emit` relies on.
- `Emitted` (emitted.dfy): end-to-end facts about the table `Emit` writes.
- `Builder` (builder.dfy):
  - the builder as a class whose `entries` field the methods update;
  - the assembler as a class whose byte buffer they append to;
  - `Emit` and its loops as methods proved against the `Encoding` and `Compaction` functions.

Two facts about the code shape the model:

- `RemoveDuplicates` runs before `TrimEntries` (:153-154). `Compaction.TrimCompactCommute` proves that the order does not matter.
- The identical-except-pc test compares the deopt index, the slot list and the register mask (:262-272). It does not compare the trampoline, so `IdenticalExceptForPc` does not either. Instead, a debug check (:263) demands equal trampolines whenever the deopt indexes are equal. That check is a caller obligation of `Emit` (`Entries.NeighboursAgree`, part of `Prepare.Ready`), and it is what keeps every recorded trampoline in the table.

## Model

| member | source | states |
|---|---|---|
| Bytes.ValueToBytes | deps/v8/src/codegen/safepoint-table.cc:179-186 | Returns at most 4 bytes. Any value below 2^32 fits the width, and a nonzero width is the least such (256^(k-1) <= v). |
| Bytes.SetBitInByte | deps/v8/src/codegen/safepoint-table.cc:245 | `bits[b] \|= 1 << r` keeps a byte a byte. It sets bit r and leaves every other bit as it was. |
| Bytes.SameBits | deps/v8/src/codegen/safepoint-table.cc:245 | Two bitmap bytes that agree on all eight bits are the same byte. |
| Bytes.EncodeLE | deps/v8/src/codegen/safepoint-table.cc:218-222 | The bytes emit_bytes writes: exactly `bytes` of them, least significant first. `Builder.EmitBytes` is proved to append them, and `RoundTrip.ReadEncoded` proves that they read back as the value when it fits. |
| Bytes.BitOrBits | deps/v8/src/codegen/safepoint-table.cc:173 | A bit of `a \| b` is set exactly when it is set in a or in b. |
| Bytes.BitOrBounds | deps/v8/src/codegen/safepoint-table.cc:173 | The OR of two masks below 2^n is below 2^n and not below either operand. |
| Entries.EntriesOrdered | deps/v8/src/codegen/safepoint-table.cc:134-151 | The debug checks of Emit: pcs increase, present trampolines increase and lie beyond the last pc, and every record has both a trampoline and a deopt index or neither. `Builder.CheckedAll` proves it equal to the record-by-record checks. |
| Entries.NeighboursAgree | deps/v8/src/codegen/safepoint-table.cc:263 | The debug check inside the identical-except-pc test: neighbours with the same deopt index have the same trampoline. `Compaction.DeoptNeighboursDiffer` and `Compaction.TrampolineKept` show that no record with a trampoline is then merged away. |
| Entries.IdenticalExceptForPc | deps/v8/src/codegen/safepoint-table.cc:260-275 | Deopt index, slot list and register mask are compared; the trampoline is not. Two records pass exactly when they differ in nothing but pc and trampoline. |
| Builder.Assembler.Db | deps/v8/src/codegen/safepoint-table.cc:220 | db appends exactly one byte to the output. |
| Builder.Assembler.Dd | deps/v8/src/codegen/safepoint-table.cc:215-216 | dd appends the word's four bytes, least significant first (the model's fixed header byte order). |
| Builder.EmitBytes | deps/v8/src/codegen/safepoint-table.cc:218-222 | The emit_bytes loop appends exactly `bytes` bytes, the little-endian encoding of the value, one db per byte. |
| Builder.SafepointTableBuilder.DefineSafepoint | deps/v8/src/codegen/safepoint-table.cc:112-116 | Appends one record with the given pc, no trampoline, no deopt index and the caller's liveness. Earlier records are unchanged. |
| Builder.SafepointTableBuilder.UpdateDeoptimizationInfo | deps/v8/src/codegen/safepoint-table.cc:118-131 | Returns the first index at or after `start` whose pc matches. Only that record's trampoline and deopt index change; every other record and field is unchanged. |
| Builder.PatchKeepsPcs | deps/v8/src/codegen/safepoint-table.cc:118-131 | Patching deopt data moves no pc, and the patched record has both a trampoline and a deopt index. |
| Builder.PatchKeepsOrdered | deps/v8/src/codegen/safepoint-table.cc:118-131 | Patching keeps the debug checks passing when the new trampoline lies beyond the last pc, after the trampolines of earlier records and before those of later ones. |
| Builder.SafepointTableBuilder.CheckOrdering | deps/v8/src/codegen/safepoint-table.cc:134-151 | The debug loop passes exactly when pcs strictly increase, present trampolines strictly increase and lie beyond the last pc, and each record has both a trampoline and a deopt index or neither. |
| Builder.CheckStep | deps/v8/src/codegen/safepoint-table.cc:137-150 | One record passes the checks against last_pc and last_trampoline exactly when the prefix including it is ordered. A failed check means the whole list is not ordered. |
| Builder.CheckedAll | deps/v8/src/codegen/safepoint-table.cc:134-151 | Checking every record is the same as the table's ordering predicate. |
| Builder.SafepointTableBuilder.RemoveDuplicates | deps/v8/src/codegen/safepoint-table.cc:253-290 | The in-place compaction, with remaining_it, the copy-down and Rewind, leaves exactly `Compact(old entries)`. |
| Builder.KeepRun | deps/v8/src/codegen/safepoint-table.cc:280-287 | One outer iteration copies record `it` to slot `remaining` and skips its run. It keeps the loop invariant: the kept prefix followed by the compaction of the unread suffix is the compaction of the original list. |
| Builder.SkipRun | deps/v8/src/codegen/safepoint-table.cc:284-286 | The do-while stops at the first later record that differs from the kept record other than in pc, or at the end. Every record it skips is identical except for pc. |
| Builder.RunEndAt | deps/v8/src/codegen/safepoint-table.cc:284-286 | Where the do-while stops is the end of the run in `Compact`, so the compaction from the run's head is the head followed by the compaction from there. |
| Compaction.RunLength | deps/v8/src/codegen/safepoint-table.cc:284-286 | The records it counts are all identical except for pc to the head. The next record, if any, is not. |
| Compaction.Compact | deps/v8/src/codegen/safepoint-table.cc:253-290 | The result is never longer than the input and keeps the first record. |
| Compaction.CompactShort | deps/v8/src/codegen/safepoint-table.cc:258 | A list of fewer than two records is unchanged. |
| Compaction.CompactRuns | deps/v8/src/codegen/safepoint-table.cc:253-290 | The result is the subsequence of run heads. The run starts strictly increase from 0, each run is identical except for pc to its head, and each run is maximal. |
| Compaction.CompactNeighboursDiffer | deps/v8/src/codegen/safepoint-table.cc:253-290 | Adjacent kept records are never identical except for pc. |
| Compaction.CompactCovers | deps/v8/src/codegen/safepoint-table.cc:253-290 | Every dropped record is identical except for pc to some kept record. |
| Compaction.CompactOrdered | deps/v8/src/codegen/safepoint-table.cc:253-290 | Compaction keeps the pc and trampoline order the debug checks demand. |
| Compaction.CompactFloor | deps/v8/src/codegen/safepoint-table.cc:254-256 | For every offset, the floor match on the compacted list finds a record identical except for pc to the one the floor match finds on the original list. |
| Compaction.DeoptNeighboursDiffer | deps/v8/src/codegen/safepoint-table.cc:262-263 | In an ordered list that meets the :263 check, a record with a deopt index never shares it with the next record. |
| Compaction.TrampolineKept | deps/v8/src/codegen/safepoint-table.cc:253-290 | In such a list, RemoveDuplicates keeps every record that has a trampoline. |
| Compaction.CompactKeepsAgree | deps/v8/src/codegen/safepoint-table.cc:262-263 | RemoveDuplicates keeps the :263 check true between neighbours. |
| Compaction.MinOr | deps/v8/src/codegen/safepoint-table.cc:293-303 | The scan's min_index is at most its start value, at most every index seen, and is either the start value or an index seen. |
| Compaction.TrimAmount | deps/v8/src/codegen/safepoint-table.cc:293-305 | How far TrimEntries lowers the slot indexes. `Compaction.TrimAmountIsLeast` proves it is 0 exactly on the two early exits, and otherwise the least slot index in use, or the size when none is. |
| Compaction.TrimAmountIsLeast | deps/v8/src/codegen/safepoint-table.cc:292-305 | The trim amount is 0 exactly when the frame has no tagged slots or slot 0 is in use. Otherwise it is the least index in use, or the whole size when none is. |
| Compaction.Trim | deps/v8/src/codegen/safepoint-table.cc:292-312 | TrimEntries as a value: the records and the new frame size. `Compaction.TrimIs`, `Compaction.TrimKeepsBound` and `Compaction.TrimEarlyExit` prove that every slot index and the size drop by `TrimAmount`, indexes stay below the new size, and nothing else changes. |
| Compaction.TrimKeepsBound | deps/v8/src/codegen/safepoint-table.cc:305-311 | The size drops by the trim amount and every index drops by it. Indexes stay below the new size, and nothing but the slot indexes changes. |
| Compaction.TrimEarlyExit | deps/v8/src/codegen/safepoint-table.cc:294-300 | When an early exit applies, TrimEntries changes nothing. |
| Compaction.TrimIs | deps/v8/src/codegen/safepoint-table.cc:292-312 | TrimEntries lowers every record's slot indexes and the frame size by the trim amount, which is at most every index. |
| Compaction.CompactKeepsSlots | deps/v8/src/codegen/safepoint-table.cc:253-290 | RemoveDuplicates keeps exactly the set of slot indexes in use. |
| Compaction.ShiftKeepsIdentical | deps/v8/src/codegen/safepoint-table.cc:262-272 | Lowering the slot indexes of two records by the same amount keeps them identical except for pc, or keeps them different. |
| Compaction.ShiftCompactCommute | deps/v8/src/codegen/safepoint-table.cc:253-311 | Shifting the slot indexes and then removing duplicates gives the same list as removing duplicates and then shifting. |
| Compaction.CompactTrimAmount | deps/v8/src/codegen/safepoint-table.cc:253-305 | RemoveDuplicates does not change the amount TrimEntries trims by. |
| Compaction.TrimCompactRecords | deps/v8/src/codegen/safepoint-table.cc:153-154 | Trimming after RemoveDuplicates leaves the same records as RemoveDuplicates after trimming. |
| Compaction.TrimCompactCommute | deps/v8/src/codegen/safepoint-table.cc:153-154 | Running TrimEntries before RemoveDuplicates gives the same records and frame size as the code's order. |
| Builder.SafepointTableBuilder.TrimEntries | deps/v8/src/codegen/safepoint-table.cc:292-312 | The records and the returned frame size are `Trim` of the old records and size. |
| Builder.SafepointTableBuilder.LeastSlotIndex | deps/v8/src/codegen/safepoint-table.cc:293-303 | The nested scan with its two early exits computes the trim amount. |
| Builder.SafepointTableBuilder.ShiftSlotIndexes | deps/v8/src/codegen/safepoint-table.cc:307-311 | The in-place loop lowers every slot index by m and changes nothing else. |
| Prepare.CompactKeepsReady | deps/v8/src/codegen/safepoint-table.cc:153 | RemoveDuplicates keeps the order, the slot bounds and the field bounds. |
| Prepare.TrimKeepsReady | deps/v8/src/codegen/safepoint-table.cc:154 | TrimEntries keeps the order and the field bounds, and its indexes stay below the lowered size. |
| Prepare.PreparedReady | deps/v8/src/codegen/safepoint-table.cc:153-154 | The records Emit writes are ready for the frame size it writes with. |
| Prepare.SameMark | deps/v8/src/codegen/safepoint-table.cc:235-246 | A bit of the lowered bitmap is set exactly when the same bit of the original bitmap is, since both mark the same distance from the frame's end. |
| Prepare.ShiftedBitmap | deps/v8/src/codegen/safepoint-table.cc:235-246 | Lowering every slot index and the frame size by the same amount moves no bit. The new bitmap is the front of the old one, and the bytes cut from the end are zero. |
| Prepare.TrimKeepsBitmaps | deps/v8/src/codegen/safepoint-table.cc:292-312 | Trim correctness: after TrimEntries, each record's bitmap at the lowered size is its original bitmap with only all-zero bytes cut from the end. |
| Builder.SafepointTableBuilder.PrepareEntries | deps/v8/src/codegen/safepoint-table.cc:153-154 | Deduplicates, then trims. It returns the trimmed size and leaves the records ready. |
| Encoding.UsedRegisters | deps/v8/src/codegen/safepoint-table.cc:172-173 | The union of all register masks stays below 2^31 and is at least every record's mask. A bit is set in it exactly when it is set in some record's mask. |
| Encoding.MaxPc | deps/v8/src/codegen/safepoint-table.cc:169-174 | max_pc bounds every pc and trampoline. It is -1 or one of them. |
| Encoding.MaxDeoptIndex | deps/v8/src/codegen/safepoint-table.cc:171-175 | max_deopt_index bounds every deopt index. It is -1 or one of them. |
| Encoding.HasDeoptData | deps/v8/src/codegen/safepoint-table.cc:187 | max_deopt_index is -1 exactly when no record has a deopt index. |
| Encoding.TableConfiguration | deps/v8/src/codegen/safepoint-table.cc:187-193 | has_deopt_data holds exactly when some record has a deopt index. Each width is at most 4 and fits every pc, trampoline + 1, deopt index + 1 and mask. The bitmap width is ceil(size / 8). |
| Builder.SafepointTableBuilder.ComputeConfiguration | deps/v8/src/codegen/safepoint-table.cc:166-193 | The accumulator loop and value_to_bytes produce exactly the table's configuration. |
| Builder.AccumulateStep | deps/v8/src/codegen/safepoint-table.cc:172-176 | One loop turn folds the next record into the register union, max_pc and max_deopt_index. |
| Table.UnpackPack | deps/v8/src/codegen/safepoint-table.cc:197-208 | A configuration whose fields fit their bit fields is recovered from its packed word. |
| Encoding.EncodeEntry | deps/v8/src/codegen/safepoint-table.cc:224-232 | A row is exactly pc + (deopt + trampoline when present) + mask bytes long. |
| Builder.EmitRow | deps/v8/src/codegen/safepoint-table.cc:224-232 | The four emit_bytes calls append exactly the row of the record. |
| Builder.EmitRows | deps/v8/src/codegen/safepoint-table.cc:223-232 | The loop appends the rows of all records, in order. |
| Encoding.SetSlot | deps/v8/src/codegen/safepoint-table.cc:240-245 | Marks one slot index: bit (size - 1 - idx) % 8 of byte (size - 1 - idx) / 8, with the length kept. `Encoding.BitmapMarks` proves which bits the marks leave set. |
| Encoding.BitmapOf | deps/v8/src/codegen/safepoint-table.cc:192-193 | Each bitmap is ceil(size / 8) bytes. |
| Encoding.BitmapMarks | deps/v8/src/codegen/safepoint-table.cc:240-246 | Bit r of byte b is set exactly when some slot index idx has size - 1 - idx == 8b + r. No other bit is set. |
| Builder.FillBitmap | deps/v8/src/codegen/safepoint-table.cc:237-246 | Clearing the reused buffer, then or-ing in each slot's bit, leaves exactly the record's bitmap. |
| Builder.EmitArray | deps/v8/src/codegen/safepoint-table.cc:249 | Appends the buffer's bytes in order. |
| Builder.EmitBitmap | deps/v8/src/codegen/safepoint-table.cc:236-250 | One iteration appends record i's bitmap after those of the records before it. |
| Builder.EmitBitmaps | deps/v8/src/codegen/safepoint-table.cc:234-250 | The loop appends the bitmaps of all records, in order. |
| Encoding.Layout | deps/v8/src/codegen/safepoint-table.cc:210-250 | The table's bytes: the count word and the configuration word, then all rows, then all bitmaps. `RoundTrip.LayoutParts` proves each part sits at its offset. |
| Encoding.EncodeTable | deps/v8/src/codegen/safepoint-table.cc:210-250 | The whole table Emit writes for a list of records. `RoundTrip.OpenEmitted` and `RoundTrip.GetEntryRoundTrip` prove the reader recovers the count, the configuration and every record with its bitmap; `Emitted.EmittedLength` gives its length. |
| Builder.SafepointTableBuilder.EmitTable | deps/v8/src/codegen/safepoint-table.cc:166-250 | Appends exactly `EncodeTable` when the configuration passes the CHECK. Otherwise it appends nothing and returns false. |
| Builder.SafepointTableBuilder.Emit | deps/v8/src/codegen/safepoint-table.cc:133-251 | The records become the deduplicated, trimmed list. ok holds exactly when its configuration passes the CHECK. Then the output grows by exactly that list's table; otherwise the output is unchanged. |
| Lookup.ReturnPcMatch | deps/v8/src/codegen/safepoint-table.cc:45 | The test of find_return_pc: the entry's trampoline or its pc equals the offset. `Lookup.ReturnPcIndex` returns the first entry that passes. |
| Lookup.ReturnPcIndex | deps/v8/src/codegen/safepoint-table.cc:42-50 | The index find_return_pc stops at matches (pc or trampoline equals the offset), and no earlier index matches. |
| Lookup.ReturnPcIndexIs | deps/v8/src/codegen/safepoint-table.cc:42-50 | An index that matches with no earlier match is the one find_return_pc answers with. |
| Lookup.ScanEnd | deps/v8/src/codegen/safepoint-table.cc:58-62 | The trampoline scan reads every trampoline up to the first one beyond the offset. |
| Lookup.LastPresent | deps/v8/src/codegen/safepoint-table.cc:57-60 | The candidate is -1 or the last entry read with a trampoline. |
| Lookup.FloorIndex | deps/v8/src/codegen/safepoint-table.cc:66-72 | The pc scan returns the last entry or one whose successor's pc is beyond the offset. All pcs after the first, up to it, are at most the offset. |
| Lookup.FloorIndexIs | deps/v8/src/codegen/safepoint-table.cc:66-72 | An index satisfying the scan's exit test is the one it returns. |
| Lookup.ScanEndIs | deps/v8/src/codegen/safepoint-table.cc:58-62 | A stop index whose prefix is at most the offset, with the next trampoline beyond it, is the scan's end. |
| Lookup.LookupIndex | deps/v8/src/codegen/safepoint-table.cc:52-74 | The entry FindEntry selects is in range. |
| Lookup.LookupIndexOfScans | deps/v8/src/codegen/safepoint-table.cc:56-72 | FindEntry answers the trampoline candidate when there is one, and the floor match otherwise. |
| Lookup.ReturnPcOfPc | deps/v8/src/codegen/safepoint-table.cc:42-50 | In an ordered table, asking about a safepoint's pc finds that safepoint. |
| Lookup.ReturnPcOfTrampoline | deps/v8/src/codegen/safepoint-table.cc:42-50 | In an ordered table, asking about a safepoint's trampoline finds that safepoint. |
| Lookup.LookupAtTrampoline | deps/v8/src/codegen/safepoint-table.cc:56-63 | With deopt data, an offset equal to an entry's trampoline finds that entry: the trampoline scan decides, and the floor match is not consulted. |
| Lookup.BelowTrampolinesUsesFloor | deps/v8/src/codegen/safepoint-table.cc:56-72 | An offset below every trampoline is resolved by the floor match alone. |
| Lookup.FloorMatch | deps/v8/src/codegen/safepoint-table.cc:66-72 | Offsets from entry k's pc up to the next entry's pc resolve to k, and only those (given the first pc is at most the offset). |
| Lookup.LookupFloor | deps/v8/src/codegen/safepoint-table.cc:56-72 | In an ordered table, an offset below every trampoline, in entry k's pc range, finds k. |
| Table.EntrySize | deps/v8/src/codegen/safepoint-table.cc:44-72 | Bytes per row as the reader steps through the rows: pc, then deopt index and trampoline when the table has deopt data, then the register mask. `RoundTrip.LayoutParts` proves it equals the width of the rows Emit writes. |
| Table.ReadField | deps/v8/src/codegen/safepoint-table.cc:44-72 | Reads one little-endian field of the given width, always below 256^width. `RoundTrip.ReadEncoded` proves it inverts emit_bytes. |
| Table.SafepointTable.GetEntry | deps/v8/src/codegen/safepoint-table.cc:44-72 | Entry i as find_return_pc and FindEntry read it: pc, deopt index and trampoline with the +1 undone, register mask, slot bitmap. `RoundTrip.GetEntryRoundTrip` proves it is record i with its bitmap on an emitted table. |
| Table.SafepointTable.FindReturnPc | deps/v8/src/codegen/safepoint-table.cc:42-50 | The loop over GetEntry returns the pc of the first entry whose pc or trampoline is the offset. A miss is excluded by the requires, because it is UNREACHABLE. |
| Table.SafepointTable.FindEntry | deps/v8/src/codegen/safepoint-table.cc:52-74 | Returns the decoded entry at the index the trampoline-then-floor lookup selects. |
| Table.SafepointTable.TrampolineCandidate | deps/v8/src/codegen/safepoint-table.cc:56-62 | The trampoline loop with its break yields the last present trampoline at or below the offset, read before the first one beyond it. |
| Table.SafepointTable.FloorEntry | deps/v8/src/codegen/safepoint-table.cc:66-73 | The pc loop returns the floor match. |
| Table.Open | deps/v8/src/codegen/safepoint-table.cc:34-40 | The reader keeps the table bytes and the instruction start, and reads the two header words in the same fixed byte order that `Builder.Assembler.Dd` writes. |
| RoundTrip.ReadEncoded | deps/v8/src/codegen/safepoint-table.cc:218-222 | Round trip of a field: the bytes emit_bytes writes for a value that fits its width, read back least significant first where they were written, give that value. |
| RoundTrip.LayoutParts | deps/v8/src/codegen/safepoint-table.cc:210-250 | The table is the count word, the configuration word, the rows and then the bitmaps, each at its offset. |
| RoundTrip.OpenEmitted | deps/v8/src/codegen/safepoint-table.cc:210-216 | Opening the emitted bytes reads back the entry count and the configuration Emit derived. |
| RoundTrip.RowRoundTrip | deps/v8/src/codegen/safepoint-table.cc:223-232 | Row i decodes to record i's pc, deopt index, trampoline and mask, with the +1 undone. Without deopt data, the sentinels read back. |
| RoundTrip.GetEntryRoundTrip | deps/v8/src/codegen/safepoint-table.cc:223-250 | Round trip: entry i decodes to record i, with its slot bitmap. |
| RoundTrip.ColumnsRoundTrip | deps/v8/src/codegen/safepoint-table.cc:223-232 | The decoded pc and trampoline columns are the records'. |
| RoundTrip.EmittedReturnPc | deps/v8/src/codegen/safepoint-table.cc:42-50 | On an emitted ordered table, find_return_pc of a safepoint's pc or its trampoline is that safepoint's pc. |
| RoundTrip.EmittedLookupAtTrampoline | deps/v8/src/codegen/safepoint-table.cc:56-63 | On an emitted ordered table, FindEntry at a safepoint's trampoline selects that safepoint. |
| RoundTrip.EmittedLookupFloor | deps/v8/src/codegen/safepoint-table.cc:66-72 | On an emitted ordered table, an offset in safepoint k's pc range and below every trampoline selects k. |
| Emitted.EmittedLength | deps/v8/src/codegen/safepoint-table.cc:210-250 | The table is 8 header bytes plus length × (row width + ceil(size / 8)) bytes. |
| Emitted.PreparedEmittable | deps/v8/src/codegen/safepoint-table.cc:153-208 | When the CHECK passes, the records Emit accepts, once deduplicated and trimmed, can be written and are ordered. |
| Emitted.EmittedFindsFloor | deps/v8/src/codegen/safepoint-table.cc:52-74 | On an emitted ordered table, an offset from the first pc on and below every trampoline finds the floor match, decoded to its record. |
| Emitted.EmittedTrampolineEntry | deps/v8/src/codegen/safepoint-table.cc:42-63 | On an emitted ordered table, a record's trampoline leads back to it. find_return_pc answers its pc, and FindEntry selects and decodes it. |
| Emitted.EmittedFindsTrampoline | deps/v8/src/codegen/safepoint-table.cc:42-63 | End to end: every trampoline recorded before Emit is still in the table it writes, on the record kept for its safepoint. find_return_pc of the trampoline answers that safepoint's pc, and FindEntry at it decodes to the trimmed record. |
| Emitted.EmittedLookupFindsRun | deps/v8/src/codegen/safepoint-table.cc:253-256 | End to end, for an offset at or after the first safepoint's pc and below every present trampoline: FindEntry on the table Emit wrote finds the kept record of the run the original floor match lies in. It decodes to the trimmed record, identical except for pc to the one the lookup would find without deduplication. |

## Left out

- `SafepointTable::Print` (:76-110) writes diagnostics to a stream and computes nothing.
- The constructors taking an `Isolate`, a `Code` object or Wasm code, and the raw memory reads of the header (:23-40), are left out. The reader works over an explicit byte sequence (`Table.Open`).
- `Builder.Assembler.Dd` and `Table.Open`: the two header words are written by `dd` (:215-216) and read through `base::Memory` (:37-39) in the host's byte order. The model fixes little-endian for both, so the header round trip holds as on little-endian hosts. Big-endian hosts are not modelled. The `emit_bytes` fields (:218-222) are least significant first on every host, as modelled.
- The header fields' accessors, `GetEntry` and the read of little-endian fields are declared in safepoint-table.h, which is not part of this model. `Table.SafepointTable.GetEntry` decodes the layout the builder writes: rows after the header, bitmaps after all rows, deopt index and trampoline stored plus one.
- The configuration word's bit layout is declared in safepoint-table.h. The model assumes has_deopt_data in bit 0, three-bit register, pc and deopt sizes, then 22 bits of bitmap width (`Table.Pack`, `Table.IsValid`).
- Assembler plumbing in Emit is left out:
  - `Align`, `RecordComment` and the constant pool scope (:156-164);
  - `offset_`;
  - `pc_offset_for_safepoint` (:113).
  
  The pc is a parameter of `DefineSafepoint`. No alignment padding is emitted.
- The `Safepoint` handle that `DefineSafepoint` returns is left out. The caller fills liveness through it. `DefineSafepoint` takes the register mask and slot list directly.
- Zone allocation, the chunked lists and `Rewind`'s memory reuse are left out. The records are a `seq` field that the methods reassign; `RemoveDuplicates` works on a local copy that it compacts and cuts.
- `Builder.SafepointTableBuilder.Emit`: a failed CHECK (:197-201) aborts the process in the source. The model returns false and appends nothing.
- `Builder.SafepointTableBuilder.Emit`: the DCHECKs of Emit, RemoveDuplicates, TrimEntries and value_to_bytes are caller obligations (`Prepare.Ready`). These are ordering, equal trampolines for equal deopt indexes (:263), slot indexes below the frame size, and non-negative values. `CheckOrdering` models the debug loop as a test that returns whether it would pass.
- `Builder.SafepointTableBuilder.Emit`: `int` overflow is excluded by the requires rather than modelled. This covers:
  - `pc`, `trampoline + 1` and `deopt_index + 1` (`Encoding.FieldsFit`);
  - the `static_cast<int>` of the entry count (fewer than 2^31 records).
- Register masks are below 2^31 (`Entries.RegisterMask`), because `value_to_bytes` DCHECKs a non-negative `int`.
- `Table.SafepointTable.FindEntry` does not model the `static_cast<int>` truncation of `pc - instruction_start_`. It does not state the debug check `DCHECK_LE(entry.pc(), pc_offset)`; `Lookup.FloorMatch` states when it holds.
- The bitmap buffer is allocated zeroed (:235) and cleared before every record (:237). `Builder.EmitBitmaps` allocates it uninitialised, because `Builder.FillBitmap` clears it before use.
