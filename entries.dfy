/** The values a safepoint table is made of: the builder's record of one
    safepoint, the reader's decoded entry, and the ordering rules a finished
    table obeys. */
module Entries {
  import opened Bytes

  /** kNoTrampolinePC and kNoDeoptIndex: the "none" sentinel of both fields. */
  const NoTrampolinePc: int := -1
  const NoDeoptIndex: int := -1

  /** An `int` field that holds either a non-negative value or the -1 sentinel. */
  type MaybeInt = x: int | x >= -1

  /** A mask of tagged registers: bit i set means register i holds a tagged
      value. It travels through an `int` that value_to_bytes requires to be
      non-negative, so bit 31 is never used. */
  type RegisterMask = x: int | 0 <= x < 0x8000_0000

  /** EntryBuilder: what the builder records for one safepoint. */
  datatype EntryBuilder = EntryBuilder(
    pc: nat,
    trampoline: MaybeInt,
    deoptIndex: MaybeInt,
    registerIndexes: RegisterMask,
    stackIndexes: seq<nat>)

  /** SafepointEntry: one entry as the reader decodes it from the table bytes. */
  datatype SafepointEntry = SafepointEntry(
    pc: nat,
    deoptIndex: MaybeInt,
    trampolinePc: MaybeInt,
    taggedRegisterIndexes: nat,
    taggedSlots: seq<byte>)

  /** Two records that would be encoded identically if they had the same pc:
      same deopt index, same ordered slot list, same register mask. The
      trampoline is not compared, so the two may differ in pc and trampoline
      and nothing else. */
  predicate IdenticalExceptForPc(a: EntryBuilder, b: EntryBuilder)
    ensures IdenticalExceptForPc(a, b) <==> a.(pc := b.pc, trampoline := b.trampoline) == b
  {
    a.deoptIndex == b.deoptIndex
    && a.stackIndexes == b.stackIndexes
    && a.registerIndexes == b.registerIndexes
  }

  function BuilderPcs(es: seq<EntryBuilder>): seq<int>
  {
    seq(|es|, i requires 0 <= i < |es| => es[i].pc)
  }

  function BuilderTrampolines(es: seq<EntryBuilder>): seq<int>
  {
    seq(|es|, i requires 0 <= i < |es| => es[i].trampoline)
  }

  predicate Increasing(s: seq<int>)
  {
    forall i, j :: 0 <= i < j < |s| ==> s[i] < s[j]
  }

  /** The trampolines that are present (not -1) increase. */
  predicate PresentIncreasing(s: seq<int>)
  {
    forall i, j :: 0 <= i < j < |s| && s[i] != NoTrampolinePc && s[j] != NoTrampolinePc ==> s[i] < s[j]
  }

  /** The order a table is emitted in: pcs strictly increase; trampolines,
      where present, strictly increase and lie beyond the last pc. */
  predicate Ordered(pcs: seq<int>, trampolines: seq<int>)
  {
    && |pcs| == |trampolines|
    && Increasing(pcs)
    && PresentIncreasing(trampolines)
    && forall i :: 0 <= i < |trampolines| && trampolines[i] != NoTrampolinePc ==> pcs[|pcs| - 1] < trampolines[i]
  }

  /** A record has a trampoline exactly when it has a deopt index. */
  predicate Paired(e: EntryBuilder)
  {
    (e.trampoline == NoTrampolinePc) == (e.deoptIndex == NoDeoptIndex)
  }

  /** What the builder's debug checks demand before the table is emitted. */
  predicate EntriesOrdered(es: seq<EntryBuilder>)
  {
    Ordered(BuilderPcs(es), BuilderTrampolines(es)) && forall i :: 0 <= i < |es| ==> Paired(es[i])
  }

  /** Neighbours with the same deopt index have the same trampoline. This is
      the debug check inside the identical-except-pc test of RemoveDuplicates,
      which compares each record of a run, and the record that ends it, with
      the run's first record: along a run that is the same demand. */
  predicate NeighboursAgree(es: seq<EntryBuilder>)
  {
    forall i :: 0 < i < |es| && es[i - 1].deoptIndex == es[i].deoptIndex ==> es[i - 1].trampoline == es[i].trampoline
  }

  /** Every slot index lies below the frame's tagged slot count. */
  predicate SlotsBelow(es: seq<EntryBuilder>, taggedSlotsSize: nat)
  {
    forall i, k :: 0 <= i < |es| && 0 <= k < |es[i].stackIndexes| ==> es[i].stackIndexes[k] < taggedSlotsSize
  }
}
