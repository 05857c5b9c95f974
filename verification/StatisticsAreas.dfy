/** The statistics areas and the DC predictions, as the arithmetic encoder and the
    arithmetic decoder re-initialise them at the start of a segment. */
module StatisticsAreas {
  import opened Numbers
  import opened Binarisation
  import opened McuCoding
  import opened ScanCoding

  /** MEMZERO of one statistics area. */
  method ZeroArea(stats: array<byte>, base: nat, n: nat)
    requires base + n <= stats.Length
    modifies stats
    ensures forall i :: 0 <= i < stats.Length ==> stats[i] == if base <= i < base + n then 0 else old(stats[i])
  {
    for j := 0 to n
      invariant forall i :: 0 <= i < stats.Length ==> stats[i] == if base <= i < base + j then 0 else old(stats[i])
    {
      stats[base + j] := 0;
    }
  }

  /** "Re-initialize statistics areas" and the DC predictions. */
  method ResetAreas(sc: Scan, stats: array<byte>, lastDc: array<int>, context: array<nat>)
    requires GoodScan(sc) && stats.Length == BINS
    requires lastDc.Length == context.Length == |sc.dcTbl|
    modifies stats, lastDc, context
    ensures stats[..] == ResetStats(sc, old(stats[..]))
    ensures Pred(lastDc[..], context[..]) == ResetPred(sc, old(Pred(lastDc[..], context[..])))
  {
    ghost var before := stats[..];
    for ci := 0 to |sc.dcTbl|
      invariant forall i :: 0 <= i < BINS ==> stats[i] == if InUse(sc, ci, i) then 0 else before[i]
      invariant if UsesDc(sc) then (forall k :: 0 <= k < ci ==> lastDc[k] == 0 && context[k] == 0)
                else lastDc[..] == old(lastDc[..]) && context[..] == old(context[..])
    {
      ghost var mid := stats[..];
      if UsesDc(sc) {
        ZeroArea(stats, DcBase(sc.dcTbl[ci]), DC_STAT_BINS);
        lastDc[ci] := 0;
        context[ci] := 0;
      }
      if UsesAc(sc) {
        ZeroArea(stats, AcBase(sc.acTbl[ci]), AC_STAT_BINS);
      }
      assert forall i :: 0 <= i < BINS ==> stats[i] == if InDcArea(sc, ci, i) || InAcArea(sc, ci, i) then 0 else mid[i];
      forall i | 0 <= i < BINS
        ensures InUse(sc, ci + 1, i) <==> InUse(sc, ci, i) || InDcArea(sc, ci, i) || InAcArea(sc, ci, i)
      {
        InUseNext(sc, ci, i);
      }
    }
  }

  lemma InUseNext(sc: Scan, n: nat, i: nat)
    requires n < |sc.dcTbl| == |sc.acTbl|
    ensures InUse(sc, n + 1, i) <==> InUse(sc, n, i) || InDcArea(sc, n, i) || InAcArea(sc, n, i)
  {
  }
}
