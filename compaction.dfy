/** What the builder does to its records before emitting them: collapsing
    runs of records that differ only in pc (RemoveDuplicates), and shifting
    every slot index down by the smallest one in use (TrimEntries). */
module Compaction {
  import opened Entries
  import opened Lookup

  /** How many records at the front of `s` are identical except for pc to
      `head`: the records the inner do-while of RemoveDuplicates skips. */
  function RunLength(head: EntryBuilder, s: seq<EntryBuilder>): (n: nat)
    ensures n <= |s|
    ensures forall j :: 0 <= j < n ==> IdenticalExceptForPc(s[j], head)
    ensures n < |s| ==> !IdenticalExceptForPc(s[n], head)
  {
    if |s| == 0 || !IdenticalExceptForPc(s[0], head) then 0
    else 1 + RunLength(head, s[1..])
  }

  /** Where the run headed by es[0] ends. */
  function FirstRunEnd(es: seq<EntryBuilder>): (d: nat)
    requires |es| > 0
    ensures 0 < d <= |es|
  {
    1 + RunLength(es[0], es[1..])
  }

  /** RemoveDuplicates: the first record of each maximal run of records
      identical except for pc to the run's first record. */
  function Compact(es: seq<EntryBuilder>): (r: seq<EntryBuilder>)
    ensures |r| <= |es|
    ensures |es| > 0 ==> |r| > 0 && r[0] == es[0]
    decreases |es|
  {
    if |es| == 0 then [] else [es[0]] + Compact(es[FirstRunEnd(es)..])
  }

  /** Where run k ends: at the start of the next run, or at the end. */
  function RunEnd(starts: seq<nat>, k: nat, n: nat): nat
    requires k < |starts|
  {
    if k + 1 < |starts| then starts[k + 1] else n
  }

  /** `starts` lists the first index of each maximal run of `es`: runs cover
      `es` from index 0 in order, every record in a run is identical except
      for pc to the run's first record, and the next run's first record is not. */
  predicate RunStarts(es: seq<EntryBuilder>, starts: seq<nat>)
  {
    RunsCover(es, starts) && RunsIdentical(es, starts) && RunsMaximal(es, starts)
  }

  predicate RunsCover(es: seq<EntryBuilder>, starts: seq<nat>)
  {
    && (|es| == 0 <==> |starts| == 0)
    && (|starts| > 0 ==> starts[0] == 0)
    && (forall k :: 0 <= k < |starts| ==> starts[k] < |es|)
    && (forall k, l :: 0 <= k < l < |starts| ==> starts[k] < starts[l])
  }

  predicate RunsIdentical(es: seq<EntryBuilder>, starts: seq<nat>)
    requires RunsCover(es, starts)
  {
    forall k, j {:trigger RunEnd(starts, k, |es|), es[j]} ::
      0 <= k < |starts| && starts[k] <= j < RunEnd(starts, k, |es|) ==> IdenticalExceptForPc(es[j], es[starts[k]])
  }

  predicate RunsMaximal(es: seq<EntryBuilder>, starts: seq<nat>)
    requires RunsCover(es, starts)
  {
    forall k {:trigger RunEnd(starts, k, |es|)} ::
      0 <= k < |starts| - 1 ==> !IdenticalExceptForPc(es[RunEnd(starts, k, |es|)], es[starts[k]])
  }

  /** Every start moved up by d. */
  function ShiftStarts(starts: seq<nat>, d: nat): (r: seq<nat>)
    ensures |r| == |starts|
    ensures forall k :: 0 <= k < |starts| ==> r[k] == starts[k] + d
  {
    seq(|starts|, k requires 0 <= k < |starts| => starts[k] + d)
  }

  /** The runs of `es` are its first run, of length d, followed by the runs of
      what comes after it. */
  lemma RunStartsCons(es: seq<EntryBuilder>, d: nat, tail: seq<nat>)
    requires 0 < d <= |es|
    requires forall j :: 0 <= j < d ==> IdenticalExceptForPc(es[j], es[0])
    requires d < |es| ==> !IdenticalExceptForPc(es[d], es[0])
    requires RunStarts(es[d..], tail)
    ensures RunStarts(es, [0] + ShiftStarts(tail, d))
  {
    var starts := [0] + ShiftStarts(tail, d);
    assert RunsCover(es, starts);
    RunsIdenticalCons(es, d, tail);
    RunsMaximalCons(es, d, tail);
  }

  lemma RunsIdenticalCons(es: seq<EntryBuilder>, d: nat, tail: seq<nat>)
    requires 0 < d <= |es|
    requires forall j :: 0 <= j < d ==> IdenticalExceptForPc(es[j], es[0])
    requires RunsCover(es[d..], tail) && RunsIdentical(es[d..], tail)
    requires RunsCover(es, [0] + ShiftStarts(tail, d))
    ensures RunsIdentical(es, [0] + ShiftStarts(tail, d))
  {
    var rest := es[d..];
    var starts := [0] + ShiftStarts(tail, d);
    forall k, j | 0 <= k < |starts| && starts[k] <= j < RunEnd(starts, k, |es|)
      ensures IdenticalExceptForPc(es[j], es[starts[k]])
    {
      if k > 0 {
        assert RunEnd(starts, k, |es|) == RunEnd(tail, k - 1, |rest|) + d;
        assert es[j] == rest[j - d] && es[starts[k]] == rest[tail[k - 1]];
      }
    }
  }

  lemma RunsMaximalCons(es: seq<EntryBuilder>, d: nat, tail: seq<nat>)
    requires 0 < d <= |es|
    requires d < |es| ==> !IdenticalExceptForPc(es[d], es[0])
    requires RunsCover(es[d..], tail) && RunsMaximal(es[d..], tail)
    requires RunsCover(es, [0] + ShiftStarts(tail, d))
    ensures RunsMaximal(es, [0] + ShiftStarts(tail, d))
  {
    var rest := es[d..];
    var starts := [0] + ShiftStarts(tail, d);
    forall k | 0 <= k < |starts| - 1
      ensures !IdenticalExceptForPc(es[RunEnd(starts, k, |es|)], es[starts[k]])
    {
      if k > 0 {
        var e := RunEnd(tail, k - 1, |rest|);
        assert RunEnd(starts, k, |es|) == e + d;
        assert es[e + d] == rest[e] && es[starts[k]] == rest[tail[k - 1]];
      } else {
        assert RunEnd(starts, 0, |es|) == d;
      }
    }
  }

  /** The first run of a non-empty list: every record before FirstRunEnd is
      identical except for pc to the head, and the record at it is not. */
  lemma FirstRun(es: seq<EntryBuilder>)
    requires |es| > 0
    ensures forall j :: 0 <= j < FirstRunEnd(es) ==> IdenticalExceptForPc(es[j], es[0])
    ensures FirstRunEnd(es) < |es| ==> !IdenticalExceptForPc(es[FirstRunEnd(es)], es[0])
  {
    var d := FirstRunEnd(es);
    forall j | 0 < j < d
      ensures IdenticalExceptForPc(es[j], es[0])
    {
      assert es[j] == es[1..][j - 1];
    }
    if d < |es| {
      assert es[d] == es[1..][d - 1];
    }
  }

  /** Compact(es) picks the records at `[0] + ShiftStarts(tail, d)` when the
      compacted rest picks those at `tail`. */
  lemma PickCons(es: seq<EntryBuilder>, d: nat, tail: seq<nat>)
    requires |es| > 0 && d == FirstRunEnd(es)
    requires |tail| == |Compact(es[d..])|
    requires forall k :: 0 <= k < |tail| ==> tail[k] < |es| - d && Compact(es[d..])[k] == es[d..][tail[k]]
    ensures |Compact(es)| == |tail| + 1
    ensures forall k :: 0 <= k < |tail| + 1 ==> Compact(es)[k] == es[([0] + ShiftStarts(tail, d))[k]]
  {
    var rest := es[d..];
    var r := Compact(es);
    var starts := [0] + ShiftStarts(tail, d);
    assert r == [es[0]] + Compact(rest);
    forall k | 0 < k < |tail| + 1
      ensures r[k] == es[starts[k]]
    {
      var t := tail[k - 1];
      assert starts[k] == t + d;
      assert r[k] == Compact(rest)[k - 1] == rest[t];
    }
  }

  /** The result of RemoveDuplicates is the sequence of first records of the
      maximal runs. */
  lemma {:induction false} CompactRuns(es: seq<EntryBuilder>) returns (starts: seq<nat>)
    ensures RunStarts(es, starts)
    ensures |starts| == |Compact(es)|
    ensures forall k :: 0 <= k < |starts| ==> Compact(es)[k] == es[starts[k]]
    decreases |es|
  {
    if |es| == 0 {
      starts := [];
    } else {
      FirstRun(es);
      var d := FirstRunEnd(es);
      var tail := CompactRuns(es[d..]);
      RunStartsCons(es, d, tail);
      PickCons(es, d, tail);
      starts := [0] + ShiftStarts(tail, d);
    }
  }

  /** The run that holds index j. */
  lemma {:induction false} RunOf(es: seq<EntryBuilder>, starts: seq<nat>, j: nat) returns (k: nat)
    requires RunStarts(es, starts) && j < |es|
    ensures k < |starts| && starts[k] <= j < RunEnd(starts, k, |es|)
  {
    k := 0;
    while RunEnd(starts, k, |es|) <= j
      invariant k < |starts| && starts[k] <= j
      decreases |starts| - k
    {
      k := k + 1;
    }
  }

  /** A list of fewer than two records is left as it is. */
  lemma CompactShort(es: seq<EntryBuilder>)
    requires |es| < 2
    ensures Compact(es) == es
  {
  }

  /** No two neighbours of the result are identical except for pc. */
  lemma CompactNeighboursDiffer(es: seq<EntryBuilder>, k: nat)
    requires k + 1 < |Compact(es)|
    ensures !IdenticalExceptForPc(Compact(es)[k], Compact(es)[k + 1])
  {
    var starts := CompactRuns(es);
    assert RunEnd(starts, k, |es|) == starts[k + 1];
  }

  /** A record of the input is dropped only when the kept record heading its
      run is identical to it except for pc. */
  lemma CompactCovers(es: seq<EntryBuilder>, j: nat) returns (k: nat)
    requires j < |es|
    ensures k < |Compact(es)| && IdenticalExceptForPc(es[j], Compact(es)[k])
  {
    var starts := CompactRuns(es);
    k := RunOf(es, starts, j);
  }

  /** The elements of `s` at the indexes `idx`. */
  function Pick(s: seq<int>, idx: seq<nat>): (r: seq<int>)
    requires forall k :: 0 <= k < |idx| ==> idx[k] < |s|
    ensures |r| == |idx|
    ensures forall k :: 0 <= k < |idx| ==> r[k] == s[idx[k]]
  {
    seq(|idx|, k requires 0 <= k < |idx| => s[idx[k]])
  }

  /** An ordered table stays ordered when entries are dropped, as long as the
      last remaining entry is no later than the original last one. */
  lemma OrderedPick(pcs: seq<int>, trampolines: seq<int>, idx: seq<nat>)
    requires Ordered(pcs, trampolines)
    requires forall k :: 0 <= k < |idx| ==> idx[k] < |pcs|
    requires forall k, l :: 0 <= k < l < |idx| ==> idx[k] < idx[l]
    ensures Ordered(Pick(pcs, idx), Pick(trampolines, idx))
  {
    if |idx| > 0 {
      assert idx[|idx| - 1] < |pcs|;
      assert pcs[idx[|idx| - 1]] <= pcs[|pcs| - 1];
    }
  }

  /** RemoveDuplicates keeps the order the debug checks demand. */
  lemma CompactOrdered(es: seq<EntryBuilder>)
    requires EntriesOrdered(es)
    ensures EntriesOrdered(Compact(es))
  {
    var starts := CompactRuns(es);
    var r := Compact(es);
    OrderedPick(BuilderPcs(es), BuilderTrampolines(es), starts);
    assert BuilderPcs(r) == Pick(BuilderPcs(es), starts);
    assert BuilderTrampolines(r) == Pick(BuilderTrampolines(es), starts);
  }

  /** Dropping all but the first index of each run keeps the floor match on
      the run that held it. */
  lemma PickFloor(pcs: seq<int>, starts: seq<nat>, offset: int, k: nat)
    requires Increasing(pcs) && 0 < |starts|
    requires starts[0] == 0 && forall l :: 0 <= l < |starts| ==> starts[l] < |pcs|
    requires forall l, m :: 0 <= l < m < |starts| ==> starts[l] < starts[m]
    requires k < |starts| && starts[k] <= FloorIndex(pcs, offset)
    requires k + 1 < |starts| ==> FloorIndex(pcs, offset) < starts[k + 1]
    ensures FloorIndex(Pick(pcs, starts), offset) == k
  {
    var i := FloorIndex(pcs, offset);
    var picked := Pick(pcs, starts);
    if k + 1 < |starts| {
      assert pcs[i + 1] <= pcs[starts[k + 1]];
    }
    forall l | 1 <= l <= k
      ensures picked[l] <= offset
    {
      assert 1 <= starts[l] <= starts[k] <= i;
    }
    FloorIndexIs(picked, offset, k);
  }

  /** Why RemoveDuplicates may drop records: the floor match on pc finds, in
      the compacted list, a record identical except for pc to the one it finds
      in the original list, for every offset. */
  lemma CompactFloor(es: seq<EntryBuilder>, offset: int)
    requires |es| > 0 && Increasing(BuilderPcs(es))
    ensures |Compact(es)| > 0
    ensures IdenticalExceptForPc(Compact(es)[FloorIndex(BuilderPcs(Compact(es)), offset)],
                                 es[FloorIndex(BuilderPcs(es), offset)])
  {
    var starts := CompactRuns(es);
    var r := Compact(es);
    var i := FloorIndex(BuilderPcs(es), offset);
    var k := RunOf(es, starts, i);
    assert BuilderPcs(r) == Pick(BuilderPcs(es), starts);
    PickFloor(BuilderPcs(es), starts, offset, k);
    assert IdenticalExceptForPc(es[i], es[starts[k]]);
  }

  /** In an ordered list whose neighbours agree, a record with a deopt
      index never shares it with the next record. */
  lemma DeoptNeighboursDiffer(es: seq<EntryBuilder>, i: nat)
    requires EntriesOrdered(es) && NeighboursAgree(es)
    requires i + 1 < |es| && es[i].deoptIndex != NoDeoptIndex
    ensures es[i + 1].deoptIndex != es[i].deoptIndex
  {
    assert Paired(es[i]) && Paired(es[i + 1]);
    assert BuilderTrampolines(es)[i] == es[i].trampoline && BuilderTrampolines(es)[i + 1] == es[i + 1].trampoline;
  }

  /** RemoveDuplicates keeps every record that has a trampoline: such a record
      starts a run of its own. */
  lemma TrampolineKept(es: seq<EntryBuilder>, k: nat) returns (j: nat)
    requires EntriesOrdered(es) && NeighboursAgree(es)
    requires k < |es| && es[k].trampoline != NoTrampolinePc
    ensures j < |Compact(es)| && Compact(es)[j] == es[k]
  {
    var starts := CompactRuns(es);
    j := RunOf(es, starts, k);
    if starts[j] < k {
      assert IdenticalExceptForPc(es[k - 1], es[starts[j]]) && IdenticalExceptForPc(es[k], es[starts[j]]);
      assert Paired(es[k]);
      DeoptNeighboursDiffer(es, k - 1);
    }
  }

  /** RemoveDuplicates keeps neighbours agreeing. */
  lemma CompactKeepsAgree(es: seq<EntryBuilder>)
    requires EntriesOrdered(es) && NeighboursAgree(es)
    ensures NeighboursAgree(Compact(es))
  {
    var starts := CompactRuns(es);
    var r := Compact(es);
    forall k | 0 < k < |r| && r[k - 1].deoptIndex == r[k].deoptIndex
      ensures r[k - 1].trampoline == r[k].trampoline
    {
      var h, e := starts[k - 1], starts[k];
      assert RunEnd(starts, k - 1, |es|) == e;
      assert Paired(es[h]) && Paired(es[e]);
      if es[h].deoptIndex != NoDeoptIndex {
        if h + 1 < e {
          assert IdenticalExceptForPc(es[h + 1], es[h]);
          DeoptNeighboursDiffer(es, h);
        }
        assert h + 1 == e;
      }
    }
  }

  /** Every slot index recorded, record by record. */
  function AllSlots(es: seq<EntryBuilder>): (s: seq<nat>)
  {
    if |es| == 0 then [] else AllSlots(es[..|es| - 1]) + es[|es| - 1].stackIndexes
  }

  lemma {:induction false} AllSlotsHolds(es: seq<EntryBuilder>, x: nat)
    ensures x in AllSlots(es) <==> exists i, k :: 0 <= i < |es| && 0 <= k < |es[i].stackIndexes| && es[i].stackIndexes[k] == x
  {
    if |es| > 0 {
      var init := es[..|es| - 1];
      AllSlotsHolds(init, x);
      assert forall i :: 0 <= i < |init| ==> init[i] == es[i];
    }
  }

  /** The least element of `s`, or `d` when that is smaller or `s` is empty. */
  function MinOr(s: seq<nat>, d: nat): (m: nat)
    ensures m <= d
    ensures forall k :: 0 <= k < |s| ==> m <= s[k]
    ensures m == d || m in s
  {
    if |s| == 0 then d
    else
      var m := MinOr(s[..|s| - 1], d);
      if s[|s| - 1] < m then s[|s| - 1] else m
  }

  /** How far TrimEntries shifts the slot indexes: nothing when the frame has
      no tagged slots or slot 0 is in use, the smallest slot index in use
      otherwise, and the whole size when no slot is in use. */
  function TrimAmount(es: seq<EntryBuilder>, taggedSlotsSize: nat): nat
  {
    if taggedSlotsSize == 0 || 0 in AllSlots(es) then 0 else MinOr(AllSlots(es), taggedSlotsSize)
  }

  /** The trim amount is zero exactly in the two early exits; otherwise it
      is the least slot index in use, or the size when none is. */
  lemma TrimAmountIsLeast(es: seq<EntryBuilder>, taggedSlotsSize: nat)
    ensures TrimAmount(es, taggedSlotsSize) == 0 <==> taggedSlotsSize == 0 || 0 in AllSlots(es)
    ensures TrimAmount(es, taggedSlotsSize) <= taggedSlotsSize
    ensures forall x :: x in AllSlots(es) ==> TrimAmount(es, taggedSlotsSize) <= x
    ensures TrimAmount(es, taggedSlotsSize) == taggedSlotsSize || TrimAmount(es, taggedSlotsSize) in AllSlots(es)
  {
    var s := AllSlots(es);
    forall x | x in s
      ensures TrimAmount(es, taggedSlotsSize) <= x
    {
      if taggedSlotsSize != 0 && 0 !in s {
        var k :| 0 <= k < |s| && s[k] == x;
      }
    }
  }

  /** Every slot index of one list lowered by m. */
  function ShiftedIndexes(slots: seq<nat>, m: nat): (r: seq<nat>)
    requires forall k :: 0 <= k < |slots| ==> m <= slots[k]
    ensures |r| == |slots|
    ensures forall k :: 0 <= k < |slots| ==> r[k] + m == slots[k]
  {
    seq(|slots|, k requires 0 <= k < |slots| => slots[k] - m)
  }

  /** One record with every slot index lowered by m. */
  function ShiftRecord(e: EntryBuilder, m: nat): EntryBuilder
    requires forall k :: 0 <= k < |e.stackIndexes| ==> m <= e.stackIndexes[k]
  {
    e.(stackIndexes := ShiftedIndexes(e.stackIndexes, m))
  }

  /** Every slot index of every record lowered by m. */
  function ShiftSlots(es: seq<EntryBuilder>, m: nat): (r: seq<EntryBuilder>)
    requires SlotsFrom(es, m)
    ensures |r| == |es|
    ensures forall i :: 0 <= i < |es| ==> r[i] == ShiftRecord(es[i], m)
  {
    seq(|es|, i requires 0 <= i < |es| => ShiftRecord(es[i], m))
  }

  /** TrimEntries as a whole: the shifted records and the new frame size. */
  function Trim(es: seq<EntryBuilder>, taggedSlotsSize: nat): (r: (seq<EntryBuilder>, nat))
  {
    var m := TrimAmount(es, taggedSlotsSize);
    TrimAmountIsLeast(es, taggedSlotsSize);
    forall i, k | 0 <= i < |es| && 0 <= k < |es[i].stackIndexes|
      ensures m <= es[i].stackIndexes[k]
    {
      AllSlotsHolds(es, es[i].stackIndexes[k]);
    }
    (ShiftSlots(es, m), taggedSlotsSize - m)
  }

  /** TrimEntries lowers every slot index and the size by the trim amount. */
  lemma TrimIs(es: seq<EntryBuilder>, taggedSlotsSize: nat)
    ensures SlotsFrom(es, TrimAmount(es, taggedSlotsSize))
    ensures Trim(es, taggedSlotsSize) == (ShiftSlots(es, TrimAmount(es, taggedSlotsSize)), taggedSlotsSize - TrimAmount(es, taggedSlotsSize))
  {
    TrimAmountIsLeast(es, taggedSlotsSize);
    forall i, k | 0 <= i < |es| && 0 <= k < |es[i].stackIndexes|
      ensures TrimAmount(es, taggedSlotsSize) <= es[i].stackIndexes[k]
    {
      AllSlotsHolds(es, es[i].stackIndexes[k]);
    }
  }

  /** After TrimEntries every slot index still lies below the new size, and
      only the slot indexes and nothing else of a record changed. */
  lemma TrimKeepsBound(es: seq<EntryBuilder>, taggedSlotsSize: nat)
    requires SlotsBelow(es, taggedSlotsSize)
    ensures |Trim(es, taggedSlotsSize).0| == |es|
    ensures SlotsBelow(Trim(es, taggedSlotsSize).0, Trim(es, taggedSlotsSize).1)
    ensures forall i :: 0 <= i < |es| ==> Trim(es, taggedSlotsSize).0[i].(stackIndexes := es[i].stackIndexes) == es[i]
    ensures Trim(es, taggedSlotsSize).1 + TrimAmount(es, taggedSlotsSize) == taggedSlotsSize
    ensures forall i, k :: 0 <= i < |es| && 0 <= k < |es[i].stackIndexes| ==>
      |Trim(es, taggedSlotsSize).0[i].stackIndexes| == |es[i].stackIndexes|
      && Trim(es, taggedSlotsSize).0[i].stackIndexes[k] + TrimAmount(es, taggedSlotsSize) == es[i].stackIndexes[k]
  {
    TrimAmountIsLeast(es, taggedSlotsSize);
  }

  /** When the early exits apply, TrimEntries changes nothing. */
  lemma TrimEarlyExit(es: seq<EntryBuilder>, taggedSlotsSize: nat)
    requires taggedSlotsSize == 0 || 0 in AllSlots(es)
    ensures Trim(es, taggedSlotsSize) == (es, taggedSlotsSize)
  {
    TrimAmountIsLeast(es, taggedSlotsSize);
    var r := Trim(es, taggedSlotsSize).0;
    forall i | 0 <= i < |es|
      ensures r[i] == es[i]
    {
      assert forall k :: 0 <= k < |es[i].stackIndexes| ==> r[i].stackIndexes[k] == es[i].stackIndexes[k];
      assert r[i].stackIndexes == es[i].stackIndexes;
    }
    assert r == es;
  }

  /** Two lists with the same elements have the same MinOr. */
  lemma MinOrSameElements(s1: seq<nat>, s2: seq<nat>, d: nat)
    requires forall x :: x in s1 <==> x in s2
    ensures MinOr(s1, d) == MinOr(s2, d)
  {
    var m1, m2 := MinOr(s1, d), MinOr(s2, d);
    assert forall x :: x in s2 ==> m1 <= x;
    assert forall x :: x in s1 ==> m2 <= x;
  }

  /** RemoveDuplicates drops no slot index: a dropped record has the slot
      list of the record kept for it. */
  lemma CompactKeepsSlots(es: seq<EntryBuilder>, x: nat)
    ensures x in AllSlots(Compact(es)) <==> x in AllSlots(es)
  {
    var r := Compact(es);
    var starts := CompactRuns(es);
    AllSlotsHolds(es, x);
    AllSlotsHolds(r, x);
    if x in AllSlots(es) {
      var i, k :| 0 <= i < |es| && 0 <= k < |es[i].stackIndexes| && es[i].stackIndexes[k] == x;
      var j := CompactCovers(es, i);
      assert r[j].stackIndexes[k] == x;
    }
    if x in AllSlots(r) {
      var j, k :| 0 <= j < |r| && 0 <= k < |r[j].stackIndexes| && r[j].stackIndexes[k] == x;
      assert es[starts[j]].stackIndexes[k] == x;
    }
  }

  /** Lowering the slot indexes of two records by the same amount keeps
      them identical except for pc, or different. */
  lemma ShiftKeepsIdentical(a: EntryBuilder, b: EntryBuilder, m: nat)
    requires forall k :: 0 <= k < |a.stackIndexes| ==> m <= a.stackIndexes[k]
    requires forall k :: 0 <= k < |b.stackIndexes| ==> m <= b.stackIndexes[k]
    ensures IdenticalExceptForPc(ShiftRecord(a, m), ShiftRecord(b, m)) <==> IdenticalExceptForPc(a, b)
  {
    var sa, sb := ShiftedIndexes(a.stackIndexes, m), ShiftedIndexes(b.stackIndexes, m);
    if sa == sb {
      assert forall k :: 0 <= k < |sa| ==> a.stackIndexes[k] == sa[k] + m == b.stackIndexes[k];
      assert a.stackIndexes == b.stackIndexes;
    }
  }

  /** Runs are the same after a shift. */
  lemma {:induction false} ShiftKeepsRunLength(head: EntryBuilder, s: seq<EntryBuilder>, m: nat)
    requires forall k :: 0 <= k < |head.stackIndexes| ==> m <= head.stackIndexes[k]
    requires SlotsFrom(s, m)
    ensures RunLength(ShiftRecord(head, m), ShiftSlots(s, m)) == RunLength(head, s)
    decreases |s|
  {
    if |s| > 0 {
      ShiftKeepsIdentical(s[0], head, m);
      assert ShiftSlots(s, m)[1..] == ShiftSlots(s[1..], m);
      ShiftKeepsRunLength(head, s[1..], m);
    }
  }

  /** Every slot index of the records is at least m. */
  predicate SlotsFrom(es: seq<EntryBuilder>, m: nat)
  {
    forall i, k :: 0 <= i < |es| && 0 <= k < |es[i].stackIndexes| ==> m <= es[i].stackIndexes[k]
  }

  /** RemoveDuplicates keeps a lower bound on the slot indexes. */
  lemma CompactSlotsFrom(es: seq<EntryBuilder>, m: nat)
    requires SlotsFrom(es, m)
    ensures SlotsFrom(Compact(es), m)
  {
    var starts := CompactRuns(es);
    assert forall j :: 0 <= j < |starts| ==> Compact(es)[j] == es[starts[j]];
  }

  /** The first run is as long after a shift. */
  lemma ShiftFirstRunEnd(es: seq<EntryBuilder>, m: nat)
    requires SlotsFrom(es, m) && |es| > 0
    ensures FirstRunEnd(ShiftSlots(es, m)) == FirstRunEnd(es)
    ensures ShiftSlots(es, m)[FirstRunEnd(es)..] == ShiftSlots(es[FirstRunEnd(es)..], m)
  {
    assert ShiftSlots(es, m)[1..] == ShiftSlots(es[1..], m);
    ShiftKeepsRunLength(es[0], es[1..], m);
  }

  /** Shifting, then removing duplicates, is removing duplicates, then
      shifting. */
  lemma {:induction false} ShiftCompactCommute(es: seq<EntryBuilder>, m: nat)
    requires SlotsFrom(es, m)
    ensures SlotsFrom(Compact(es), m)
    ensures Compact(ShiftSlots(es, m)) == ShiftSlots(Compact(es), m)
    decreases |es|
  {
    CompactSlotsFrom(es, m);
    if |es| > 0 {
      var d := FirstRunEnd(es);
      var sh := ShiftSlots(es, m);
      ShiftFirstRunEnd(es, m);
      ShiftCompactCommute(es[d..], m);
      var tail := Compact(es[d..]);
      CompactSlotsFrom(es[d..], m);
      calc {
        Compact(sh);
        [sh[0]] + Compact(sh[d..]);
        [ShiftRecord(es[0], m)] + ShiftSlots(tail, m);
        { ShiftCons(es[0], tail, m); }
        ShiftSlots([es[0]] + tail, m);
      }
    }
  }

  /** Shifting a list is shifting its head and its tail. */
  lemma ShiftCons(x: EntryBuilder, rest: seq<EntryBuilder>, m: nat)
    requires SlotsFrom([x] + rest, m)
    ensures SlotsFrom(rest, m) && forall k :: 0 <= k < |x.stackIndexes| ==> m <= x.stackIndexes[k]
    ensures ShiftSlots([x] + rest, m) == [ShiftRecord(x, m)] + ShiftSlots(rest, m)
  {
    var xs := [x] + rest;
    assert xs[0] == x;
    forall i, k | 0 <= i < |rest| && 0 <= k < |rest[i].stackIndexes|
      ensures m <= rest[i].stackIndexes[k]
    {
      assert rest[i] == xs[i + 1];
    }
    var l, r := ShiftSlots(xs, m), [ShiftRecord(x, m)] + ShiftSlots(rest, m);
    forall i | 0 <= i < |xs|
      ensures l[i] == r[i]
    {
      if i > 0 {
        assert xs[i] == rest[i - 1];
      }
    }
  }


  /** RemoveDuplicates does not change the trim amount: it keeps the set
      of slot indexes in use. */
  lemma CompactTrimAmount(es: seq<EntryBuilder>, taggedSlotsSize: nat)
    ensures TrimAmount(Compact(es), taggedSlotsSize) == TrimAmount(es, taggedSlotsSize)
  {
    forall x
      ensures x in AllSlots(Compact(es)) <==> x in AllSlots(es)
    {
      CompactKeepsSlots(es, x);
    }
    MinOrSameElements(AllSlots(Compact(es)), AllSlots(es), taggedSlotsSize);
  }

  /** RemoveDuplicates then TrimEntries leaves the same records as
      TrimEntries then RemoveDuplicates: both see the same slot indexes, so
      they trim by the same amount, and a uniform shift neither makes nor
      breaks a run. */
  lemma TrimCompactRecords(es: seq<EntryBuilder>, taggedSlotsSize: nat)
    ensures Trim(Compact(es), taggedSlotsSize).0 == Compact(Trim(es, taggedSlotsSize).0)
  {
    var m, c := TrimAmount(es, taggedSlotsSize), Compact(es);
    TrimIs(es, taggedSlotsSize);
    ShiftCompactCommute(es, m);
    CompactTrimAmount(es, taggedSlotsSize);
    TrimIs(c, taggedSlotsSize);
  }

  /** The order of RemoveDuplicates and TrimEntries does not matter: the
      records and the frame size come out the same. */
  lemma TrimCompactCommute(es: seq<EntryBuilder>, taggedSlotsSize: nat)
    ensures Trim(Compact(es), taggedSlotsSize) == (Compact(Trim(es, taggedSlotsSize).0), Trim(es, taggedSlotsSize).1)
  {
    TrimCompactRecords(es, taggedSlotsSize);
    CompactTrimAmount(es, taggedSlotsSize);
  }
}
