/** The safepoint table reader: a read-only view over the emitted bytes
    that decodes the header and the entries and answers the two lookups. */
module Table {
  import opened Bytes
  import opened Entries
  import opened Lookup

  /** Byte offsets of the two header words. */
  const LengthOffset: nat := 0
  const EntryConfigurationOffset: nat := 4
  const HeaderSize: nat := 8

  /** Capacity of the configuration word's tagged_slots_bytes field (22 bits). */
  const TaggedSlotsBytesLimit: nat := 0x40_0000

  /** The per-table entry configuration: which optional fields are present
      and how many bytes each field of an entry takes. */
  datatype EntryConfiguration = EntryConfiguration(
    hasDeoptData: bool,
    registerIndexesSize: nat,
    pcSize: nat,
    deoptIndexSize: nat,
    taggedSlotsBytes: nat)

  /** Every field fits its bit field of the configuration word: three bits
      for each size, 22 bits for the bitmap width. */
  predicate IsValid(c: EntryConfiguration)
  {
    c.registerIndexesSize < 8 && c.pcSize < 8 && c.deoptIndexSize < 8
    && c.taggedSlotsBytes < TaggedSlotsBytesLimit
  }

  /** The configuration word: has_deopt_data in bit 0, then three 3-bit
      sizes, then the bitmap width. */
  function Pack(c: EntryConfiguration): (w: nat)
    requires IsValid(c)
    ensures w < 0x1_0000_0000
  {
    (if c.hasDeoptData then 1 else 0) + 2 * c.registerIndexesSize + 16 * c.pcSize
    + 128 * c.deoptIndexSize + 1024 * c.taggedSlotsBytes
  }

  function Unpack(w: nat): EntryConfiguration
  {
    EntryConfiguration(w % 2 == 1, (w / 2) % 8, (w / 16) % 8, (w / 128) % 8, w / 1024)
  }

  lemma UnpackPack(c: EntryConfiguration)
    requires IsValid(c)
    ensures Unpack(Pack(c)) == c
  {
    var w := Pack(c);
    var b := if c.hasDeoptData then 1 else 0;
    var r, p, d, t := c.registerIndexesSize, c.pcSize, c.deoptIndexSize, c.taggedSlotsBytes;
    var upper := d + 8 * t;
    Split(w, b, r + 8 * (p + 8 * upper), 2);
    Split(w / 2, r, p + 8 * upper, 8);
    Split(w, b + 2 * r, p + 8 * upper, 16);
    Split(w / 16, p, upper, 8);
    Split(w, b + 2 * r + 16 * p, upper, 128);
    Split(w / 128, d, t, 8);
    Split(w, b + 2 * r + 16 * p + 128 * d, t, 1024);
  }

  /** Division by k takes x = lo + k * hi apart, for the divisors the
      configuration word's fields sit at. */
  lemma Split(x: nat, lo: nat, hi: nat, k: nat)
    requires k == 2 || k == 8 || k == 16 || k == 128 || k == 1024
    requires lo < k && x == lo + k * hi
    ensures x / k == hi && x % k == lo
  {
    if k == 2 {
      assert x == lo + 2 * hi;
    } else if k == 8 {
      assert x == lo + 8 * hi;
    } else if k == 16 {
      assert x == lo + 16 * hi;
    } else if k == 128 {
      assert x == lo + 128 * hi;
    } else {
      assert x == lo + 1024 * hi;
    }
  }

  /** Bytes per entry row, bitmap excluded. */
  function EntrySize(c: EntryConfiguration): nat
  {
    c.pcSize + (if c.hasDeoptData then c.deoptIndexSize + c.pcSize else 0) + c.registerIndexesSize
  }

  /** Where the i-th of a run of `width`-byte records starts: i * width. */
  function Offset(i: nat, width: nat): nat
  {
    if i == 0 then 0 else Offset(i - 1, width) + width
  }

  lemma {:induction false} RowFits(i: nat, n: nat, width: nat)
    requires i < n
    ensures Offset(i, width) + width <= Offset(n, width)
  {
    if i + 1 < n {
      RowFits(i, n - 1, width);
    }
  }

  /** Reads the `width`-byte little-endian field at `at` (read_bytes). */
  function ReadField(blob: seq<byte>, at: nat, width: nat): (v: nat)
    requires at + width <= |blob|
    ensures v < Pow256(width)
    decreases width
  {
    if width == 0 then 0 else blob[at] + 256 * ReadField(blob, at + 1, width - 1)
  }

  /** A view over the table bytes `blob`, for code whose instructions start
      at `instructionStart`, with the two header words already read. */
  datatype SafepointTable = SafepointTable(
    instructionStart: int,
    length: nat,
    entryConfiguration: EntryConfiguration,
    blob: seq<byte>)
  {
    /** The blob holds the header, `length` entry rows and as many bitmaps. */
    predicate Valid()
    {
      HeaderSize + Offset(length, EntrySize(entryConfiguration)) + Offset(length, entryConfiguration.taggedSlotsBytes) <= |blob|
    }

    /** Where entry i's row of fields starts. */
    function RowStart(i: nat): (at: nat)
      requires Valid() && i < length
      ensures at + EntrySize(entryConfiguration) <= |blob|
    {
      RowFits(i, length, EntrySize(entryConfiguration));
      HeaderSize + Offset(i, EntrySize(entryConfiguration))
    }

    /** Where entry i's slot bitmap starts: the bitmaps follow all the rows. */
    function BitmapStart(i: nat): (at: nat)
      requires Valid() && i < length
      ensures at + entryConfiguration.taggedSlotsBytes <= |blob|
    {
      RowFits(i, length, entryConfiguration.taggedSlotsBytes);
      HeaderSize + Offset(length, EntrySize(entryConfiguration)) + Offset(i, entryConfiguration.taggedSlotsBytes)
    }

    /** The pc field of entry i: the first field of its row. */
    function PcAt(i: nat): nat
      requires Valid() && i < length
    {
      ReadField(blob, RowStart(i), entryConfiguration.pcSize)
    }

    /** The deopt index of entry i: stored plus one after the pc, when the
        table has deopt data; the sentinel otherwise. */
    function DeoptIndexAt(i: nat): MaybeInt
      requires Valid() && i < length
    {
      var c := entryConfiguration;
      if c.hasDeoptData then ReadField(blob, RowStart(i) + c.pcSize, c.deoptIndexSize) - 1 else NoDeoptIndex
    }

    /** The trampoline pc of entry i: stored plus one after the deopt index,
        with the pc's width, when the table has deopt data. */
    function TrampolineAt(i: nat): MaybeInt
      requires Valid() && i < length
    {
      var c := entryConfiguration;
      if c.hasDeoptData then ReadField(blob, RowStart(i) + c.pcSize + c.deoptIndexSize, c.pcSize) - 1 else NoTrampolinePc
    }

    /** The register mask of entry i: the last field of its row. */
    function RegistersAt(i: nat): nat
      requires Valid() && i < length
    {
      var c := entryConfiguration;
      ReadField(blob, RowStart(i) + EntrySize(c) - c.registerIndexesSize, c.registerIndexesSize)
    }

    /** The slot bitmap bytes of entry i. */
    function SlotsAt(i: nat): seq<byte>
      requires Valid() && i < length
    {
      var at := BitmapStart(i);
      blob[at..at + entryConfiguration.taggedSlotsBytes]
    }

    /** GetEntry: entry i as the reader decodes it. */
    function GetEntry(i: nat): SafepointEntry
      requires Valid() && i < length
    {
      SafepointEntry(PcAt(i), DeoptIndexAt(i), TrampolineAt(i), RegistersAt(i), SlotsAt(i))
    }

    /** The pcs of all entries, in table order. */
    function Pcs(): (pcs: seq<int>)
      requires Valid()
      ensures |pcs| == length
    {
      seq(length, i requires 0 <= i < length && Valid() => PcAt(i))
    }

    /** The trampoline pcs of all entries, in table order. */
    function Trampolines(): (trampolines: seq<int>)
      requires Valid()
      ensures |trampolines| == length
    {
      seq(length, i requires 0 <= i < length && Valid() => TrampolineAt(i))
    }

    /** find_return_pc: the pc of the first entry whose pc or trampoline is
        `pcOffset`. A miss is a fatal internal error, so callers only ask
        about registered offsets. */
    method FindReturnPc(pcOffset: int) returns (r: int)
      requires Valid()
      requires exists i :: 0 <= i < length && ReturnPcMatch(Pcs(), Trampolines(), i, pcOffset)
      ensures r == Pcs()[ReturnPcIndex(Pcs(), Trampolines(), pcOffset)]
    {
      ghost var pcs, trampolines := Pcs(), Trampolines();
      var i := 0;
      while i < length
        invariant i <= length
        invariant forall j :: 0 <= j < i ==> !ReturnPcMatch(pcs, trampolines, j, pcOffset)
      {
        var entry := GetEntry(i);
        assert entry.pc == pcs[i] && entry.trampolinePc == trampolines[i];
        if entry.trampolinePc == pcOffset || entry.pc == pcOffset {
          ReturnPcIndexIs(pcs, trampolines, pcOffset, i);
          return entry.pc;
        }
        i := i + 1;
      }
      assert false;
    }

    /** FindEntry: the entry for the address `pc` (trampoline precedence,
        then the floor match on pc). An empty table is a fatal error. */
    method FindEntry(pc: int) returns (entry: SafepointEntry)
      requires Valid() && length > 0
      ensures entry == GetEntry(LookupIndex(Pcs(), Trampolines(), pc - instructionStart, entryConfiguration.hasDeoptData))
    {
      var pcOffset := pc - instructionStart;
      var candidate := -1;
      if entryConfiguration.hasDeoptData {
        candidate := TrampolineCandidate(pcOffset);
      }
      var index: nat := 0;
      if candidate != -1 {
        index := candidate;
      } else {
        index := FloorEntry(pcOffset);
      }
      LookupIndexOfScans(Pcs(), Trampolines(), pcOffset, entryConfiguration.hasDeoptData, candidate, index);
      assert index == LookupIndex(Pcs(), Trampolines(), pc - instructionStart, entryConfiguration.hasDeoptData);
      entry := GetEntry(index);
    }

    /** The trampoline scan of FindEntry: the last entry with a trampoline
        at or below the offset, stopping at the first trampoline beyond it. */
    method TrampolineCandidate(pcOffset: int) returns (candidate: int)
      requires Valid()
      ensures candidate == LastPresent(Trampolines(), ScanEnd(Trampolines(), pcOffset))
    {
      ghost var trampolines := Trampolines();
      candidate := -1;
      var i := 0;
      while i < length
        invariant i <= length
        invariant forall j :: 0 <= j < i ==> trampolines[j] <= pcOffset
        invariant candidate == LastPresent(trampolines, i)
      {
        var trampolinePc := GetEntry(i).trampolinePc;
        assert trampolinePc == trampolines[i];
        if trampolinePc != NoTrampolinePc && trampolinePc <= pcOffset {
          candidate := i;
        }
        if trampolinePc > pcOffset {
          break;
        }
        i := i + 1;
      }
      ScanEndIs(trampolines, pcOffset, i);
    }

    /** The pc scan of FindEntry: the floor match. */
    method FloorEntry(pcOffset: int) returns (i: nat)
      requires Valid() && length > 0
      ensures i == FloorIndex(Pcs(), pcOffset)
    {
      ghost var pcs := Pcs();
      i := 0;
      while i < length
        invariant i < length
        invariant forall j :: 1 <= j <= i ==> pcs[j] <= pcOffset
      {
        if i == length - 1 || GetEntry(i + 1).pc > pcOffset {
          assert i < length - 1 ==> pcs[i + 1] == GetEntry(i + 1).pc;
          FloorIndexIs(pcs, pcOffset, i);
          return;
        }
        assert pcs[i + 1] == GetEntry(i + 1).pc;
        i := i + 1;
      }
      assert false;
    }
  }

  /** The reader's constructor: reads the entry count and the configuration
      word from the header of `blob`. */
  function Open(instructionStart: int, blob: seq<byte>): (t: SafepointTable)
    requires |blob| >= HeaderSize
    ensures t.blob == blob && t.instructionStart == instructionStart
  {
    SafepointTable(instructionStart, ReadField(blob, LengthOffset, 4),
      Unpack(ReadField(blob, EntryConfigurationOffset, 4)), blob)
  }
}
