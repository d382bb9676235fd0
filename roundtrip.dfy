/** The reader recovers what the builder wrote: opening the emitted bytes
    gives back the entry count, the configuration and, entry by entry, the
    pc, deopt index, trampoline, register mask and slot bitmap. */
module RoundTrip {
  import opened Bytes
  import opened Entries
  import opened Table
  import opened Lookup
  import opened Encoding

  /** What Emit needs of its (deduplicated, trimmed) records to write a
      table the reader can decode: the debug checks' pairing, slot indexes
      below the frame size, values that fit an `int` plus one, and a
      configuration the configuration word can hold. */
  predicate Emittable(es: seq<EntryBuilder>, taggedSlotsSize: nat)
  {
    && |es| < 0x8000_0000
    && (forall i :: 0 <= i < |es| ==> Paired(es[i]))
    && FieldsFit(es)
    && SlotsBelow(es, taggedSlotsSize)
    && IsValid(TableConfiguration(es, taggedSlotsSize))
  }

  /** A field written by EncodeLE reads back as the value written. */
  lemma {:induction false} ReadEncoded(blob: seq<byte>, at: nat, v: nat, w: nat)
    requires at + w <= |blob| && v < Pow256(w)
    requires blob[at..at + w] == EncodeLE(v, w)
    ensures ReadField(blob, at, w) == v
    decreases w
  {
    if w > 0 {
      assert blob[at] == blob[at..at + w][0];
      assert blob[at + 1..at + w] == blob[at..at + w][1..];
      ReadEncoded(blob, at + 1, v / 256, w - 1);
    }
  }

  /** The four parts of a concatenation, sliced back out. */
  lemma SliceParts(a: seq<byte>, b: seq<byte>, c: seq<byte>, d: seq<byte>)
    ensures var s := a + b + c + d;
      && s[..|a|] == a
      && s[|a|..|a| + |b|] == b
      && s[|a| + |b|..|a| + |b| + |c|] == c
      && s[|a| + |b| + |c|..] == d
  {
  }

  /** A slice of a slice is a slice. */
  lemma SliceOfSlice(s: seq<byte>, lo: nat, hi: nat, x: nat, y: nat)
    requires lo <= hi <= |s| && x <= y <= hi - lo
    ensures s[lo..hi][x..y] == s[lo + x..lo + y]
  {
    assert forall k :: 0 <= k < y - x ==> s[lo..hi][x..y][k] == s[lo + x..lo + y][k];
  }

  /** Every part has width w. */
  predicate Uniform(parts: seq<seq<byte>>, w: nat)
  {
    forall k :: 0 <= k < |parts| ==> |parts[k]| == w
  }

  /** The shape of a laid-out table the reader can open. */
  predicate WellLaid(n: nat, c: EntryConfiguration, rows: seq<seq<byte>>, bitmaps: seq<seq<byte>>)
  {
    && IsValid(c) && n < 0x1_0000_0000
    && |rows| == |bitmaps| == n
    && Uniform(rows, EntrySize(c)) && Uniform(bitmaps, c.taggedSlotsBytes)
  }

  /** The layout's four parts, sliced back out of the table bytes. */
  lemma LayoutParts(n: nat, c: EntryConfiguration, rows: seq<seq<byte>>, bitmaps: seq<seq<byte>>)
    requires WellLaid(n, c, rows, bitmaps)
    ensures var blob := Layout(n, c, rows, bitmaps);
      && |blob| == HeaderSize + Offset(n, EntrySize(c)) + Offset(n, c.taggedSlotsBytes)
      && blob[..4] == EncodeLE(n, 4)
      && blob[4..8] == EncodeLE(Pack(c), 4)
      && blob[8..8 + Offset(n, EntrySize(c))] == Concat(rows)
      && blob[8 + Offset(n, EntrySize(c))..] == Concat(bitmaps)
  {
    ConcatLength(rows, EntrySize(c));
    ConcatLength(bitmaps, c.taggedSlotsBytes);
    assert n % 0x1_0000_0000 == n;
    SliceParts(EncodeLE(n, 4), EncodeLE(Pack(c), 4), Concat(rows), Concat(bitmaps));
  }

  /** The header of a laid-out table reads back as its count and its
      configuration. */
  lemma OpenLayout(instructionStart: int, n: nat, c: EntryConfiguration, rows: seq<seq<byte>>, bitmaps: seq<seq<byte>>)
    requires WellLaid(n, c, rows, bitmaps)
    ensures |Layout(n, c, rows, bitmaps)| >= HeaderSize
    ensures var t := Open(instructionStart, Layout(n, c, rows, bitmaps));
      t.length == n && t.entryConfiguration == c && t.Valid()
  {
    var blob := Layout(n, c, rows, bitmaps);
    LayoutParts(n, c, rows, bitmaps);
    Pow256Values();
    ReadEncoded(blob, 0, n, 4);
    ReadEncoded(blob, 4, Pack(c), 4);
    UnpackPack(c);
  }

  /** Row i sits where the reader looks for it, when the rows follow the
      header back to back. */
  lemma TableRow(t: SafepointTable, rows: seq<seq<byte>>, i: nat)
    requires t.Valid() && i < t.length
    requires |rows| == t.length && Uniform(rows, EntrySize(t.entryConfiguration))
    requires t.blob[8..8 + Offset(t.length, EntrySize(t.entryConfiguration))] == Concat(rows)
    ensures t.blob[t.RowStart(i)..t.RowStart(i) + EntrySize(t.entryConfiguration)] == rows[i]
  {
    var w := EntrySize(t.entryConfiguration);
    ConcatUniform(rows, w, i);
    SliceOfSlice(t.blob, 8, 8 + Offset(t.length, w), Offset(i, w), Offset(i, w) + w);
  }

  /** Bitmap i is the one the reader returns, when the bitmaps follow the
      rows back to back. */
  lemma TableBitmap(t: SafepointTable, bitmaps: seq<seq<byte>>, i: nat)
    requires t.Valid() && i < t.length
    requires |bitmaps| == t.length && Uniform(bitmaps, t.entryConfiguration.taggedSlotsBytes)
    requires t.blob[8 + Offset(t.length, EntrySize(t.entryConfiguration))..] == Concat(bitmaps)
    ensures t.SlotsAt(i) == bitmaps[i]
  {
    var w := t.entryConfiguration.taggedSlotsBytes;
    var start := 8 + Offset(t.length, EntrySize(t.entryConfiguration));
    ConcatUniform(bitmaps, w, i);
    SliceOfSlice(t.blob, start, |t.blob|, Offset(i, w), Offset(i, w) + w);
  }

  /** The fields of an encoded row, sliced back out. */
  lemma RowSlices(e: EntryBuilder, c: EntryConfiguration)
    ensures var row, p, d, r := EncodeEntry(e, c), c.pcSize, c.deoptIndexSize, c.registerIndexesSize;
      && |row| == EntrySize(c)
      && row[0..p] == EncodeLE(e.pc, p)
      && row[|row| - r..|row|] == EncodeLE(e.registerIndexes, r)
      && (c.hasDeoptData ==>
            && row[p..p + d] == EncodeLE(e.deoptIndex + 1, d)
            && row[p + d..p + d + p] == EncodeLE(e.trampoline + 1, p))
  {
    var a, b, t, r := EncodeLE(e.pc, c.pcSize), EncodeLE(e.deoptIndex + 1, c.deoptIndexSize),
      EncodeLE(e.trampoline + 1, c.pcSize), EncodeLE(e.registerIndexes, c.registerIndexesSize);
    if c.hasDeoptData {
      assert EncodeEntry(e, c) == a + b + t + r;
      SliceParts(a, b, t, r);
    } else {
      assert EncodeEntry(e, c) == a + [] + [] + r;
      SliceParts(a, [], [], r);
    }
  }

  /** A field found by slicing a row out of the table reads back as the
      value encoded into it. */
  lemma ReadInRow(blob: seq<byte>, at: nat, row: seq<byte>, x: nat, k: nat, v: nat, pos: nat)
    requires at + |row| <= |blob| && blob[at..at + |row|] == row
    requires x + k <= |row| && v < Pow256(k) && row[x..x + k] == EncodeLE(v, k)
    requires pos == at + x
    ensures ReadField(blob, pos, k) == v
  {
    SliceOfSlice(blob, at, at + |row|, x, x + k);
    ReadEncoded(blob, pos, v, k);
  }

  /** The row at `at` in `blob` is the one EncodeEntry wrote for e. */
  predicate RowAt(blob: seq<byte>, at: nat, e: EntryBuilder, c: EntryConfiguration)
  {
    at + EntrySize(c) <= |blob| && blob[at..at + EntrySize(c)] == EncodeEntry(e, c)
  }

  /** The pc field decodes to the record's pc. */
  lemma PcField(blob: seq<byte>, at: nat, e: EntryBuilder, c: EntryConfiguration)
    requires RowAt(blob, at, e, c) && e.pc < Pow256(c.pcSize)
    ensures ReadField(blob, at, c.pcSize) == e.pc
  {
    RowSlices(e, c);
    ReadInRow(blob, at, EncodeEntry(e, c), 0, c.pcSize, e.pc, at);
  }

  /** The register field, the last of the row, decodes to the record's
      register mask. */
  lemma RegistersField(blob: seq<byte>, at: nat, e: EntryBuilder, c: EntryConfiguration)
    requires RowAt(blob, at, e, c) && e.registerIndexes < Pow256(c.registerIndexesSize)
    ensures at + EntrySize(c) - c.registerIndexesSize >= 0
    ensures ReadField(blob, at + EntrySize(c) - c.registerIndexesSize, c.registerIndexesSize) == e.registerIndexes
  {
    var w, r := EntrySize(c), c.registerIndexesSize;
    RowSlices(e, c);
    ReadInRow(blob, at, EncodeEntry(e, c), w - r, r, e.registerIndexes, at + w - r);
  }

  /** With deopt data, the field after the pc decodes to the record's deopt
      index plus one. */
  lemma DeoptIndexField(blob: seq<byte>, at: nat, e: EntryBuilder, c: EntryConfiguration)
    requires RowAt(blob, at, e, c) && c.hasDeoptData
    requires e.deoptIndex + 1 < Pow256(c.deoptIndexSize)
    ensures at + c.pcSize + c.deoptIndexSize <= |blob|
    ensures ReadField(blob, at + c.pcSize, c.deoptIndexSize) == e.deoptIndex + 1
  {
    RowSlices(e, c);
    ReadInRow(blob, at, EncodeEntry(e, c), c.pcSize, c.deoptIndexSize, e.deoptIndex + 1, at + c.pcSize);
  }

  /** With deopt data, the field after the deopt index decodes to the
      record's trampoline plus one. */
  lemma TrampolineField(blob: seq<byte>, at: nat, e: EntryBuilder, c: EntryConfiguration)
    requires RowAt(blob, at, e, c) && c.hasDeoptData
    requires e.trampoline + 1 < Pow256(c.pcSize)
    ensures at + c.pcSize + c.deoptIndexSize + c.pcSize <= |blob|
    ensures ReadField(blob, at + c.pcSize + c.deoptIndexSize, c.pcSize) == e.trampoline + 1
  {
    var p, d := c.pcSize, c.deoptIndexSize;
    RowSlices(e, c);
    ReadInRow(blob, at, EncodeEntry(e, c), p + d, p, e.trampoline + 1, at + p + d);
  }

  /** The entry the reader should decode for record e: its fields as
      recorded and the bitmap of its slot indexes. */
  function Expected(e: EntryBuilder, taggedSlotsSize: nat): SafepointEntry
    requires forall k :: 0 <= k < |e.stackIndexes| ==> e.stackIndexes[k] < taggedSlotsSize
  {
    SafepointEntry(e.pc, e.deoptIndex, e.trampoline, e.registerIndexes, BitmapOf(e.stackIndexes, taggedSlotsSize))
  }

  /** Opening the emitted table reads back the entry count and the
      configuration Emit derived, and finds the rows and the bitmaps where
      Emit put them. */
  lemma OpenEmitted(instructionStart: int, es: seq<EntryBuilder>, taggedSlotsSize: nat)
    requires Emittable(es, taggedSlotsSize)
    ensures |EncodeTable(es, taggedSlotsSize)| >= HeaderSize
    ensures var t := Open(instructionStart, EncodeTable(es, taggedSlotsSize));
      var c := TableConfiguration(es, taggedSlotsSize);
      && t.Valid() && t.length == |es| && t.entryConfiguration == c
      && t.blob[8..8 + Offset(|es|, EntrySize(c))] == Concat(Rows(es, c))
      && t.blob[8 + Offset(|es|, EntrySize(c))..] == Concat(Bitmaps(es, taggedSlotsSize))
    ensures var c := TableConfiguration(es, taggedSlotsSize);
      Uniform(Rows(es, c), EntrySize(c)) && Uniform(Bitmaps(es, taggedSlotsSize), c.taggedSlotsBytes)
  {
    var c := TableConfiguration(es, taggedSlotsSize);
    var rows, bitmaps := Rows(es, c), Bitmaps(es, taggedSlotsSize);
    assert Uniform(rows, EntrySize(c));
    assert Uniform(bitmaps, c.taggedSlotsBytes);
    OpenLayout(instructionStart, |es|, c, rows, bitmaps);
    LayoutParts(|es|, c, rows, bitmaps);
  }

  /** Row i of the emitted table decodes to record i's pc, deopt index,
      trampoline and register mask. Without deopt data the deopt index and
      the trampoline read as the sentinel, which is what every record holds
      then. */
  lemma RowRoundTrip(instructionStart: int, es: seq<EntryBuilder>, taggedSlotsSize: nat, i: nat)
    requires Emittable(es, taggedSlotsSize) && i < |es|
    ensures |EncodeTable(es, taggedSlotsSize)| >= HeaderSize
    ensures var t := Open(instructionStart, EncodeTable(es, taggedSlotsSize));
      && t.Valid() && t.length == |es|
      && t.PcAt(i) == es[i].pc && t.DeoptIndexAt(i) == es[i].deoptIndex
      && t.TrampolineAt(i) == es[i].trampoline && t.RegistersAt(i) == es[i].registerIndexes
  {
    var c := TableConfiguration(es, taggedSlotsSize);
    var t := Open(instructionStart, EncodeTable(es, taggedSlotsSize));
    OpenEmitted(instructionStart, es, taggedSlotsSize);
    TableRow(t, Rows(es, c), i);
    RowDecodes(t, i, es[i]);
  }

  /** A row EncodeEntry wrote for a paired record e, with every field in its
      width, decodes to e's fields. */
  lemma RowDecodes(t: SafepointTable, i: nat, e: EntryBuilder)
    requires t.Valid() && i < t.length && Paired(e)
    requires RowAt(t.blob, t.RowStart(i), e, t.entryConfiguration)
    requires var c := t.entryConfiguration;
      && e.pc < Pow256(c.pcSize) && e.registerIndexes < Pow256(c.registerIndexesSize)
      && e.deoptIndex + 1 < Pow256(c.deoptIndexSize) && e.trampoline + 1 < Pow256(c.pcSize)
      && (e.deoptIndex != NoDeoptIndex ==> c.hasDeoptData)
    ensures t.PcAt(i) == e.pc && t.DeoptIndexAt(i) == e.deoptIndex
    ensures t.TrampolineAt(i) == e.trampoline && t.RegistersAt(i) == e.registerIndexes
  {
    var c := t.entryConfiguration;
    var at := t.RowStart(i);
    PcField(t.blob, at, e, c);
    RegistersField(t.blob, at, e, c);
    if c.hasDeoptData {
      DeoptDecodes(t, i, e);
    } else {
      assert e.deoptIndex == NoDeoptIndex && e.trampoline == NoTrampolinePc;
    }
  }

  /** With deopt data, the deopt index and the trampoline of a row
      EncodeEntry wrote decode to the record's. */
  lemma DeoptDecodes(t: SafepointTable, i: nat, e: EntryBuilder)
    requires t.Valid() && i < t.length && t.entryConfiguration.hasDeoptData
    requires RowAt(t.blob, t.RowStart(i), e, t.entryConfiguration)
    requires e.deoptIndex + 1 < Pow256(t.entryConfiguration.deoptIndexSize)
    requires e.trampoline + 1 < Pow256(t.entryConfiguration.pcSize)
    ensures t.DeoptIndexAt(i) == e.deoptIndex && t.TrampolineAt(i) == e.trampoline
  {
    var c := t.entryConfiguration;
    var at := t.RowStart(i);
    DeoptIndexField(t.blob, at, e, c);
    TrampolineField(t.blob, at, e, c);
  }

  /** Round trip: entry i of the emitted table decodes to record i. */
  lemma GetEntryRoundTrip(instructionStart: int, es: seq<EntryBuilder>, taggedSlotsSize: nat, i: nat)
    requires Emittable(es, taggedSlotsSize) && i < |es|
    ensures |EncodeTable(es, taggedSlotsSize)| >= HeaderSize
    ensures var t := Open(instructionStart, EncodeTable(es, taggedSlotsSize));
      && t.Valid() && t.length == |es|
      && t.GetEntry(i) == Expected(es[i], taggedSlotsSize)
  {
    var t := Open(instructionStart, EncodeTable(es, taggedSlotsSize));
    OpenEmitted(instructionStart, es, taggedSlotsSize);
    RowRoundTrip(instructionStart, es, taggedSlotsSize, i);
    TableBitmap(t, Bitmaps(es, taggedSlotsSize), i);
  }

  /** The reader's pc and trampoline columns are the builder's. */
  lemma ColumnsRoundTrip(instructionStart: int, es: seq<EntryBuilder>, taggedSlotsSize: nat)
    requires Emittable(es, taggedSlotsSize)
    ensures |EncodeTable(es, taggedSlotsSize)| >= HeaderSize
    ensures var t := Open(instructionStart, EncodeTable(es, taggedSlotsSize));
      && t.Valid() && t.length == |es|
      && t.Pcs() == BuilderPcs(es) && t.Trampolines() == BuilderTrampolines(es)
  {
    var t := Open(instructionStart, EncodeTable(es, taggedSlotsSize));
    OpenEmitted(instructionStart, es, taggedSlotsSize);
    forall i | 0 <= i < |es|
      ensures t.PcAt(i) == es[i].pc && t.TrampolineAt(i) == es[i].trampoline
    {
      RowRoundTrip(instructionStart, es, taggedSlotsSize, i);
    }
    ColumnsOf(t, es);
  }

  /** A table whose rows hold the records' pcs and trampolines has the
      records' columns. */
  lemma ColumnsOf(t: SafepointTable, es: seq<EntryBuilder>)
    requires t.Valid() && t.length == |es|
    requires forall i :: 0 <= i < |es| ==> t.PcAt(i) == es[i].pc && t.TrampolineAt(i) == es[i].trampoline
    ensures t.Pcs() == BuilderPcs(es) && t.Trampolines() == BuilderTrampolines(es)
  {
    assert t.Pcs() == BuilderPcs(es);
    assert t.Trampolines() == BuilderTrampolines(es);
  }

  /** find_return_pc on the emitted table of ordered records: asked about a
      safepoint's pc, or about its trampoline, it answers that safepoint's pc. */
  lemma EmittedReturnPc(instructionStart: int, es: seq<EntryBuilder>, taggedSlotsSize: nat, k: nat)
    requires Emittable(es, taggedSlotsSize) && EntriesOrdered(es) && k < |es|
    ensures |EncodeTable(es, taggedSlotsSize)| >= HeaderSize
    ensures var t := Open(instructionStart, EncodeTable(es, taggedSlotsSize));
      t.Valid() && t.length == |es|
    ensures var t := Open(instructionStart, EncodeTable(es, taggedSlotsSize));
      && ReturnPcMatch(t.Pcs(), t.Trampolines(), k, es[k].pc)
      && t.Pcs()[ReturnPcIndex(t.Pcs(), t.Trampolines(), es[k].pc)] == es[k].pc
      && (es[k].trampoline != NoTrampolinePc ==>
            && ReturnPcMatch(t.Pcs(), t.Trampolines(), k, es[k].trampoline)
            && t.Pcs()[ReturnPcIndex(t.Pcs(), t.Trampolines(), es[k].trampoline)] == es[k].pc)
  {
    ColumnsRoundTrip(instructionStart, es, taggedSlotsSize);
    var pcs, trampolines := BuilderPcs(es), BuilderTrampolines(es);
    ReturnPcOfPc(pcs, trampolines, k);
    if es[k].trampoline != NoTrampolinePc {
      ReturnPcOfTrampoline(pcs, trampolines, k);
    }
  }

  /** FindEntry on the emitted table of ordered records: an offset at a
      safepoint's trampoline finds that safepoint. */
  lemma EmittedLookupAtTrampoline(instructionStart: int, es: seq<EntryBuilder>, taggedSlotsSize: nat, k: nat)
    requires Emittable(es, taggedSlotsSize) && EntriesOrdered(es) && k < |es|
    requires es[k].trampoline != NoTrampolinePc
    ensures |EncodeTable(es, taggedSlotsSize)| >= HeaderSize
    ensures var t := Open(instructionStart, EncodeTable(es, taggedSlotsSize));
      t.Valid() && t.length == |es|
    ensures var t := Open(instructionStart, EncodeTable(es, taggedSlotsSize));
      && LookupIndex(t.Pcs(), t.Trampolines(), es[k].trampoline, t.entryConfiguration.hasDeoptData) == k
  {
    var t := Open(instructionStart, EncodeTable(es, taggedSlotsSize));
    ColumnsRoundTrip(instructionStart, es, taggedSlotsSize);
    OpenEmitted(instructionStart, es, taggedSlotsSize);
    assert Paired(es[k]);
    assert t.entryConfiguration.hasDeoptData;
    LookupAtTrampoline(BuilderPcs(es), BuilderTrampolines(es), k);
  }

  /** FindEntry on the emitted table of ordered records: an offset from a
      safepoint's pc up to the next one's, below every trampoline, finds
      that safepoint. */
  lemma EmittedLookupFloor(instructionStart: int, es: seq<EntryBuilder>, taggedSlotsSize: nat, k: nat, offset: int)
    requires Emittable(es, taggedSlotsSize) && EntriesOrdered(es) && k < |es|
    requires forall j :: 0 <= j < |es| && es[j].trampoline != NoTrampolinePc ==> offset < es[j].trampoline
    requires es[k].pc <= offset && (k == |es| - 1 || offset < es[k + 1].pc)
    ensures |EncodeTable(es, taggedSlotsSize)| >= HeaderSize
    ensures var t := Open(instructionStart, EncodeTable(es, taggedSlotsSize));
      t.Valid() && t.length == |es|
    ensures var t := Open(instructionStart, EncodeTable(es, taggedSlotsSize));
      && LookupIndex(t.Pcs(), t.Trampolines(), offset, t.entryConfiguration.hasDeoptData) == k
  {
    var t := Open(instructionStart, EncodeTable(es, taggedSlotsSize));
    ColumnsRoundTrip(instructionStart, es, taggedSlotsSize);
    RecordsFloor(es, offset, t.entryConfiguration.hasDeoptData, k);
  }

  /** The floor match on the records' own columns. */
  lemma RecordsFloor(es: seq<EntryBuilder>, offset: int, hasDeoptData: bool, k: nat)
    requires EntriesOrdered(es) && k < |es|
    requires forall j :: 0 <= j < |es| && es[j].trampoline != NoTrampolinePc ==> offset < es[j].trampoline
    requires es[k].pc <= offset && (k == |es| - 1 || offset < es[k + 1].pc)
    ensures LookupIndex(BuilderPcs(es), BuilderTrampolines(es), offset, hasDeoptData) == k
  {
    var pcs, trampolines := BuilderPcs(es), BuilderTrampolines(es);
    assert pcs[k] == es[k].pc && (k < |es| - 1 ==> pcs[k + 1] == es[k + 1].pc);
    LookupFloor(pcs, trampolines, offset, hasDeoptData, k);
  }
}
