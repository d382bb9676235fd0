/** What the table reader's two lookups return, stated over the decoded
    entries: the return-pc search and the entry search with trampoline
    precedence and a floor match on pc. */
module Lookup {
  import opened Entries

  /** Entry i answers find_return_pc(pcOffset): its pc or its trampoline is the offset. */
  predicate ReturnPcMatch(pcs: seq<int>, trampolines: seq<int>, i: nat, pcOffset: int)
    requires i < |pcs| == |trampolines|
  {
    trampolines[i] == pcOffset || pcs[i] == pcOffset
  }

  /** The first entry whose pc or trampoline is `pcOffset`. */
  function ReturnPcIndex(pcs: seq<int>, trampolines: seq<int>, pcOffset: int): (r: nat)
    requires |pcs| == |trampolines|
    requires exists i :: 0 <= i < |pcs| && ReturnPcMatch(pcs, trampolines, i, pcOffset)
    ensures r < |pcs| && ReturnPcMatch(pcs, trampolines, r, pcOffset)
    ensures forall j :: 0 <= j < r ==> !ReturnPcMatch(pcs, trampolines, j, pcOffset)
  {
    if ReturnPcMatch(pcs, trampolines, 0, pcOffset) then 0
    else
      assert forall i :: 1 <= i < |pcs| ==>
        (ReturnPcMatch(pcs, trampolines, i, pcOffset) <==> ReturnPcMatch(pcs[1..], trampolines[1..], i - 1, pcOffset));
      1 + ReturnPcIndex(pcs[1..], trampolines[1..], pcOffset)
  }

  lemma ReturnPcIndexIs(pcs: seq<int>, trampolines: seq<int>, pcOffset: int, i: nat)
    requires i < |pcs| == |trampolines|
    requires ReturnPcMatch(pcs, trampolines, i, pcOffset)
    requires forall j :: 0 <= j < i ==> !ReturnPcMatch(pcs, trampolines, j, pcOffset)
    ensures ReturnPcIndex(pcs, trampolines, pcOffset) == i
  {
  }

  /** Where the trampoline scan stops: the first entry whose trampoline lies
      beyond the offset, or the end of the table. */
  function ScanEnd(trampolines: seq<int>, offset: int): (n: nat)
    ensures n <= |trampolines|
    ensures forall j :: 0 <= j < n ==> trampolines[j] <= offset
    ensures n < |trampolines| ==> trampolines[n] > offset
  {
    if |trampolines| == 0 || trampolines[0] > offset then 0
    else 1 + ScanEnd(trampolines[1..], offset)
  }

  /** The last entry before `end` that has a trampoline, or -1. */
  function LastPresent(trampolines: seq<int>, end: nat): (c: int)
    requires end <= |trampolines|
    ensures -1 <= c < end
    ensures c >= 0 ==> trampolines[c] != NoTrampolinePc
    ensures forall j :: c < j < end ==> trampolines[j] == NoTrampolinePc
  {
    if end == 0 then -1
    else if trampolines[end - 1] != NoTrampolinePc then end - 1
    else LastPresent(trampolines, end - 1)
  }

  /** The floor match: the first index that is the last one or whose
      successor's pc lies beyond the offset. */
  function FloorIndex(pcs: seq<int>, offset: int): (r: nat)
    requires |pcs| > 0
    ensures r < |pcs|
    ensures r == |pcs| - 1 || pcs[r + 1] > offset
    ensures forall j :: 1 <= j <= r ==> pcs[j] <= offset
  {
    if |pcs| == 1 || pcs[1] > offset then 0
    else 1 + FloorIndex(pcs[1..], offset)
  }

  lemma FloorIndexIs(pcs: seq<int>, offset: int, i: nat)
    requires i < |pcs|
    requires i == |pcs| - 1 || pcs[i + 1] > offset
    requires forall j :: 1 <= j <= i ==> pcs[j] <= offset
    ensures FloorIndex(pcs, offset) == i
  {
  }

  lemma ScanEndIs(trampolines: seq<int>, offset: int, i: nat)
    requires i <= |trampolines|
    requires i == |trampolines| || trampolines[i] > offset
    requires forall j :: 0 <= j < i ==> trampolines[j] <= offset
    ensures ScanEnd(trampolines, offset) == i
  {
  }

  /** The entry FindEntry picks for an offset: the trampoline candidate when
      the table has deopt data and there is one, the floor match otherwise. */
  function LookupIndex(pcs: seq<int>, trampolines: seq<int>, offset: int, hasDeoptData: bool): (i: nat)
    requires 0 < |pcs| == |trampolines|
    ensures i < |pcs|
  {
    var candidate := if hasDeoptData then LastPresent(trampolines, ScanEnd(trampolines, offset)) else -1;
    if candidate != -1 then candidate else FloorIndex(pcs, offset)
  }

  /** LookupIndex assembled from the results of its two scans. */
  lemma LookupIndexOfScans(pcs: seq<int>, trampolines: seq<int>, offset: int, hasDeoptData: bool, candidate: int, floor: nat)
    requires 0 < |pcs| == |trampolines|
    requires candidate == if hasDeoptData then LastPresent(trampolines, ScanEnd(trampolines, offset)) else -1
    requires candidate == -1 ==> floor == FloorIndex(pcs, offset)
    ensures LookupIndex(pcs, trampolines, offset, hasDeoptData) == if candidate != -1 then candidate else floor
  {
  }

  /** In an ordered table the return pc of a safepoint is its own pc. */
  lemma ReturnPcOfPc(pcs: seq<int>, trampolines: seq<int>, k: nat)
    requires Ordered(pcs, trampolines)
    requires k < |pcs| && 0 <= pcs[k]
    ensures ReturnPcMatch(pcs, trampolines, k, pcs[k])
    ensures ReturnPcIndex(pcs, trampolines, pcs[k]) == k
  {
    forall j | 0 <= j < k
      ensures !ReturnPcMatch(pcs, trampolines, j, pcs[k])
    {
      assert pcs[j] < pcs[k] <= pcs[|pcs| - 1];
      assert trampolines[j] != pcs[k];
    }
  }

  /** In an ordered table a trampoline leads back to the pc of its safepoint. */
  lemma ReturnPcOfTrampoline(pcs: seq<int>, trampolines: seq<int>, k: nat)
    requires Ordered(pcs, trampolines)
    requires k < |pcs| && trampolines[k] != NoTrampolinePc
    ensures ReturnPcMatch(pcs, trampolines, k, trampolines[k])
    ensures ReturnPcIndex(pcs, trampolines, trampolines[k]) == k
  {
    forall j | 0 <= j < k
      ensures !ReturnPcMatch(pcs, trampolines, j, trampolines[k])
    {
      assert pcs[j] <= pcs[|pcs| - 1];
    }
  }

  /** Trampoline precedence: an offset exactly at a trampoline finds that
      trampoline's entry, not the entry whose pc range contains it. */
  lemma LookupAtTrampoline(pcs: seq<int>, trampolines: seq<int>, k: nat)
    requires Ordered(pcs, trampolines)
    requires k < |pcs| && 0 <= trampolines[k]
    ensures LookupIndex(pcs, trampolines, trampolines[k], true) == k
  {
    assert forall j :: 0 <= j <= k ==> trampolines[j] <= trampolines[k];
  }

  /** An offset below every trampoline is resolved by the floor match alone. */
  lemma BelowTrampolinesUsesFloor(pcs: seq<int>, trampolines: seq<int>, offset: int, hasDeoptData: bool)
    requires 0 < |pcs| == |trampolines|
    requires forall i :: 0 <= i < |trampolines| && trampolines[i] != NoTrampolinePc ==> offset < trampolines[i]
    ensures LookupIndex(pcs, trampolines, offset, hasDeoptData) == FloorIndex(pcs, offset)
  {
  }

  /** Floor match: offsets from an entry's pc up to (not including) the next
      entry's pc resolve to that entry, and only to it. */
  lemma FloorMatch(pcs: seq<int>, offset: int, k: nat)
    requires Increasing(pcs)
    requires k < |pcs|
    ensures (pcs[k] <= offset && (k == |pcs| - 1 || offset < pcs[k + 1])) <==> FloorIndex(pcs, offset) == k && pcs[0] <= offset
  {
  }

  /** In an ordered table, an offset below every trampoline, from entry k's
      pc up to the next entry's, finds entry k. */
  lemma LookupFloor(pcs: seq<int>, trampolines: seq<int>, offset: int, hasDeoptData: bool, k: nat)
    requires Ordered(pcs, trampolines) && k < |pcs|
    requires forall i :: 0 <= i < |trampolines| && trampolines[i] != NoTrampolinePc ==> offset < trampolines[i]
    requires pcs[k] <= offset && (k == |pcs| - 1 || offset < pcs[k + 1])
    ensures LookupIndex(pcs, trampolines, offset, hasDeoptData) == k
  {
    BelowTrampolinesUsesFloor(pcs, trampolines, offset, hasDeoptData);
    FloorMatch(pcs, offset, k);
    assert pcs[0] <= pcs[k];
  }
}
