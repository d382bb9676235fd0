/** What a caller of Emit gets back from the table it wrote: its size, and
    the record FindEntry finds for an offset among the original safepoints. */
module Emitted {
  import opened Bytes
  import opened Entries
  import opened Lookup
  import opened Compaction
  import opened Table
  import opened Encoding
  import opened RoundTrip
  import opened Prepare

  /** Where k records of `width` bytes end: k * width. */
  lemma {:induction false} OffsetIsProduct(k: nat, width: nat)
    ensures Offset(k, width) == k * width
  {
    if k > 0 {
      OffsetIsProduct(k - 1, width);
    }
  }

  /** Offsets of two widths add up to the offset of the summed width. */
  lemma {:induction false} OffsetSum(k: nat, a: nat, b: nat)
    ensures Offset(k, a) + Offset(k, b) == Offset(k, a + b)
  {
    if k > 0 {
      OffsetSum(k - 1, a, b);
    }
  }

  /** Bytes of a table of n records whose rows are rowWidth bytes and whose
      bitmaps are bitmapWidth bytes. */
  function TableLength(n: nat, rowWidth: nat, bitmapWidth: nat): nat
  {
    HeaderSize + n * (rowWidth + bitmapWidth)
  }

  /** A laid-out table is 8 header bytes plus, per record, a row and a
      bitmap. */
  lemma LayoutLength(blob: seq<byte>, n: nat, c: EntryConfiguration, rows: seq<seq<byte>>, bitmaps: seq<seq<byte>>, rowWidth: nat, bitmapWidth: nat)
    requires WellLaid(n, c, rows, bitmaps) && blob == Layout(n, c, rows, bitmaps)
    requires rowWidth == EntrySize(c) && bitmapWidth == c.taggedSlotsBytes
    ensures |blob| == TableLength(n, rowWidth, bitmapWidth)
  {
    assert |blob| == HeaderSize + Offset(n, rowWidth) + Offset(n, bitmapWidth) by {
      LayoutParts(n, c, rows, bitmaps);
    }
    OffsetSum(n, rowWidth, bitmapWidth);
    OffsetIsProduct(n, rowWidth + bitmapWidth);
  }

  /** The table Emit writes is 8 header bytes plus, per record, a row and a
      bitmap of ceil(taggedSlotsSize / 8) bytes. */
  lemma EmittedLength(es: seq<EntryBuilder>, taggedSlotsSize: nat)
    requires Emittable(es, taggedSlotsSize)
    ensures |EncodeTable(es, taggedSlotsSize)|
      == TableLength(|es|, EntrySize(TableConfiguration(es, taggedSlotsSize)), BitmapBytes(taggedSlotsSize))
  {
    var c := TableConfiguration(es, taggedSlotsSize);
    var rows, bitmaps := Rows(es, c), Bitmaps(es, taggedSlotsSize);
    assert Uniform(rows, EntrySize(c));
    assert Uniform(bitmaps, c.taggedSlotsBytes);
    LayoutLength(EncodeTable(es, taggedSlotsSize), |es|, c, rows, bitmaps, EntrySize(c), BitmapBytes(taggedSlotsSize));
  }

  /** The configuration Emit derives after deduplicating and trimming. */
  function PreparedConfiguration(es: seq<EntryBuilder>, taggedSlotsSize: nat): EntryConfiguration
    requires Ready(es, taggedSlotsSize)
  {
    PreparedReady(es, taggedSlotsSize);
    TableConfiguration(Prepared(es, taggedSlotsSize), PreparedSize(es, taggedSlotsSize))
  }

  /** Records Emit accepts, once deduplicated and trimmed, are ones it can
      write whenever the configuration word holds their widths. */
  lemma PreparedEmittable(es: seq<EntryBuilder>, taggedSlotsSize: nat)
    requires Ready(es, taggedSlotsSize)
    requires IsValid(PreparedConfiguration(es, taggedSlotsSize))
    ensures Emittable(Prepared(es, taggedSlotsSize), PreparedSize(es, taggedSlotsSize))
    ensures EntriesOrdered(Prepared(es, taggedSlotsSize))
  {
    PreparedReady(es, taggedSlotsSize);
  }

  /** Deduplicating and trimming keeps the pc column of the first record of
      each run, and every trampoline left is one the caller recorded. */
  lemma PreparedColumns(es: seq<EntryBuilder>, taggedSlotsSize: nat, offset: int)
    requires Ready(es, taggedSlotsSize) && |es| > 0
    requires forall j :: 0 <= j < |es| && es[j].trampoline != NoTrampolinePc ==> offset < es[j].trampoline
    ensures var p := Prepared(es, taggedSlotsSize);
      && |p| == |Compact(es)| > 0 && p[0].pc == es[0].pc
      && BuilderPcs(p) == BuilderPcs(Compact(es))
      && forall j :: 0 <= j < |p| && p[j].trampoline != NoTrampolinePc ==> offset < p[j].trampoline
  {
    var c := Compact(es);
    var p := Prepared(es, taggedSlotsSize);
    var starts := CompactRuns(es);
    CompactKeepsReady(es, taggedSlotsSize);
    TrimKeepsBound(c, taggedSlotsSize);
    forall j | 0 <= j < |p|
      ensures p[j].pc == c[j].pc && p[j].trampoline == es[starts[j]].trampoline
    {
      assert p[j].(stackIndexes := c[j].stackIndexes) == c[j];
    }
    assert BuilderPcs(p) == BuilderPcs(c);
  }

  /** FindEntry on an emitted table of ordered records, for an offset at or
      after the first pc and below every trampoline, finds the floor match
      and decodes it to its record. */
  lemma EmittedFindsFloor(instructionStart: int, es: seq<EntryBuilder>, taggedSlotsSize: nat, offset: int)
    requires Emittable(es, taggedSlotsSize) && EntriesOrdered(es) && |es| > 0
    requires es[0].pc <= offset
    requires forall j :: 0 <= j < |es| && es[j].trampoline != NoTrampolinePc ==> offset < es[j].trampoline
    ensures |EncodeTable(es, taggedSlotsSize)| >= HeaderSize
    ensures var t := Open(instructionStart, EncodeTable(es, taggedSlotsSize));
      t.Valid() && t.length == |es|
    ensures var t := Open(instructionStart, EncodeTable(es, taggedSlotsSize));
      var k := LookupIndex(t.Pcs(), t.Trampolines(), offset, t.entryConfiguration.hasDeoptData);
      && k == FloorIndex(BuilderPcs(es), offset)
      && t.GetEntry(k) == Expected(es[k], taggedSlotsSize)
  {
    var k := FloorIndex(BuilderPcs(es), offset);
    assert es[k].pc <= offset && (k == |es| - 1 || offset < es[k + 1].pc) by {
      assert BuilderPcs(es)[k] == es[k].pc;
    }
    EmittedLookupFloor(instructionStart, es, taggedSlotsSize, k, offset);
    GetEntryRoundTrip(instructionStart, es, taggedSlotsSize, k);
  }

  /** End to end: for an offset at or after the first safepoint and below
      every trampoline, FindEntry on the table Emit wrote finds the record
      RemoveDuplicates kept for the run that holds the original list's
      floor match, identical to it except for pc, and decodes it to the
      trimmed record. */
  lemma EmittedLookupFindsRun(instructionStart: int, es: seq<EntryBuilder>, taggedSlotsSize: nat, offset: int)
    requires Ready(es, taggedSlotsSize) && |es| > 0
    requires IsValid(PreparedConfiguration(es, taggedSlotsSize))
    requires es[0].pc <= offset
    requires forall j :: 0 <= j < |es| && es[j].trampoline != NoTrampolinePc ==> offset < es[j].trampoline
    ensures Emittable(Prepared(es, taggedSlotsSize), PreparedSize(es, taggedSlotsSize))
    ensures |EncodeTable(Prepared(es, taggedSlotsSize), PreparedSize(es, taggedSlotsSize))| >= HeaderSize
    ensures var p, size := Prepared(es, taggedSlotsSize), PreparedSize(es, taggedSlotsSize);
      var t := Open(instructionStart, EncodeTable(p, size));
      t.Valid() && t.length == |p| && |p| == |Compact(es)|
    ensures var p, size := Prepared(es, taggedSlotsSize), PreparedSize(es, taggedSlotsSize);
      var t := Open(instructionStart, EncodeTable(p, size));
      var k := LookupIndex(t.Pcs(), t.Trampolines(), offset, t.entryConfiguration.hasDeoptData);
      && t.GetEntry(k) == Expected(p[k], size)
      && IdenticalExceptForPc(Compact(es)[k], es[FloorIndex(BuilderPcs(es), offset)])
  {
    var p, size := Prepared(es, taggedSlotsSize), PreparedSize(es, taggedSlotsSize);
    PreparedEmittable(es, taggedSlotsSize);
    PreparedColumns(es, taggedSlotsSize, offset);
    EmittedFindsFloor(instructionStart, p, size, offset);
    CompactFloor(es, offset);
  }

  /** On the emitted table of ordered records, a record's trampoline leads
      back to it: find_return_pc answers its pc, FindEntry selects it and
      decodes it. */
  lemma EmittedTrampolineEntry(instructionStart: int, p: seq<EntryBuilder>, size: nat, j: nat)
    requires Emittable(p, size) && EntriesOrdered(p) && j < |p| && p[j].trampoline != NoTrampolinePc
    ensures |EncodeTable(p, size)| >= HeaderSize
    ensures var t := Open(instructionStart, EncodeTable(p, size));
      t.Valid() && t.length == |p|
    ensures var t := Open(instructionStart, EncodeTable(p, size));
      && ReturnPcMatch(t.Pcs(), t.Trampolines(), j, p[j].trampoline)
      && t.Pcs()[ReturnPcIndex(t.Pcs(), t.Trampolines(), p[j].trampoline)] == p[j].pc
      && LookupIndex(t.Pcs(), t.Trampolines(), p[j].trampoline, t.entryConfiguration.hasDeoptData) == j
      && t.GetEntry(j) == Expected(p[j], size)
  {
    EmittedReturnPc(instructionStart, p, size, j);
    EmittedLookupAtTrampoline(instructionStart, p, size, j);
    GetEntryRoundTrip(instructionStart, p, size, j);
  }

  /** End to end, for trampolines: every trampoline the caller recorded is
      still in the table Emit wrote, on the record kept for its safepoint.
      find_return_pc of the trampoline answers that safepoint's pc, and
      FindEntry at the trampoline decodes to the record, trimmed. */
  lemma EmittedFindsTrampoline(instructionStart: int, es: seq<EntryBuilder>, taggedSlotsSize: nat, k: nat) returns (j: nat)
    requires Ready(es, taggedSlotsSize) && k < |es| && es[k].trampoline != NoTrampolinePc
    requires IsValid(PreparedConfiguration(es, taggedSlotsSize))
    ensures Emittable(Prepared(es, taggedSlotsSize), PreparedSize(es, taggedSlotsSize))
    ensures |EncodeTable(Prepared(es, taggedSlotsSize), PreparedSize(es, taggedSlotsSize))| >= HeaderSize
    ensures var p, size := Prepared(es, taggedSlotsSize), PreparedSize(es, taggedSlotsSize);
      var t := Open(instructionStart, EncodeTable(p, size));
      t.Valid() && t.length == |p| && j < |p|
    ensures var p := Prepared(es, taggedSlotsSize);
      p[j].(stackIndexes := es[k].stackIndexes) == es[k]
    ensures var p, size := Prepared(es, taggedSlotsSize), PreparedSize(es, taggedSlotsSize);
      var t := Open(instructionStart, EncodeTable(p, size));
      && ReturnPcMatch(t.Pcs(), t.Trampolines(), j, es[k].trampoline)
      && t.Pcs()[ReturnPcIndex(t.Pcs(), t.Trampolines(), es[k].trampoline)] == es[k].pc
      && LookupIndex(t.Pcs(), t.Trampolines(), es[k].trampoline, t.entryConfiguration.hasDeoptData) == j
      && t.GetEntry(j) == Expected(p[j], size)
  {
    var p, size := Prepared(es, taggedSlotsSize), PreparedSize(es, taggedSlotsSize);
    PreparedEmittable(es, taggedSlotsSize);
    j := TrampolineKept(es, k);
    assert j < |p| && p[j].(stackIndexes := es[k].stackIndexes) == es[k] by {
      CompactKeepsReady(es, taggedSlotsSize);
      TrimKeepsBound(Compact(es), taggedSlotsSize);
    }
    assert p[j].pc == es[k].pc && p[j].trampoline == es[k].trampoline;
    EmittedTrampolineEntry(instructionStart, p, size, j);
  }
}
