/** Elite replacement in copyNextGeneration (include/ga.h:443-503): one slot
    of the freshly scored generation is overwritten with the previous
    generation's best fitness, and the generation maximum and minimum are
    re-scanned under a condition. As written, the re-scan happens only when
    the overwritten slot held the extremum; a previous best that lies outside
    the new generation's [min, max] then leaves a stale extremum behind. The
    engine uses the corrected condition below. */
module Elitism {
  import opened FitnessLedger

  datatype Extrema = Extrema(min: real, max: real)

  /** Re-scan conditions as written (include/ga.h:462 and include/ga.h:484). */
  predicate RescanMaxAsWritten(replaced: real, max: real)
  {
    replaced == max
  }

  predicate RescanMinAsWritten(replaced: real, min: real)
  {
    replaced == min
  }

  /** Corrected conditions: also re-scan when the incoming elite fitness lies
      beyond the extremum. */
  predicate RescanMax(replaced: real, incoming: real, max: real)
  {
    replaced == max || incoming > max
  }

  predicate RescanMin(replaced: real, incoming: real, min: real)
  {
    replaced == min || incoming < min
  }

  /** The generation's (min, max) after elite replacement as the source
      computes it. */
  function ElitismExtremaAsWritten(ledger: seq<real>, ext: Extrema, slot: nat, incoming: real): Extrema
    requires slot < |ledger|
  {
    var after := ledger[slot := incoming];
    var replaced := ledger[slot];
    Extrema(if RescanMinAsWritten(replaced, ext.min) then MinOf(after) else ext.min,
            if RescanMaxAsWritten(replaced, ext.max) then MaxOf(after) else ext.max)
  }

  /** The source's computation is exact as long as the incoming fitness
      already lies within the generation's [min, max]. */
  lemma AsWrittenExactWithinRange(ledger: seq<real>, ext: Extrema, slot: nat, incoming: real)
    requires slot < |ledger|
    requires IsMinOf(ext.min, ledger) && IsMaxOf(ext.max, ledger)
    requires ext.min <= incoming <= ext.max
    ensures var e := ElitismExtremaAsWritten(ledger, ext, slot, incoming);
      IsMinOf(e.min, ledger[slot := incoming]) && IsMaxOf(e.max, ledger[slot := incoming])
  {
    KeptExtremaExact(ledger, ext, slot, incoming);
  }

  /** The corrected computation: with exact extrema before, the result is the
      exact minimum and maximum of the ledger after replacement. */
  function ElitismExtrema(ledger: seq<real>, ext: Extrema, slot: nat, incoming: real): (e: Extrema)
    requires slot < |ledger|
    requires IsMinOf(ext.min, ledger) && IsMaxOf(ext.max, ledger)
    ensures IsMinOf(e.min, ledger[slot := incoming]) && IsMaxOf(e.max, ledger[slot := incoming])
  {
    var after := ledger[slot := incoming];
    var replaced := ledger[slot];
    KeptExtremaExact(ledger, ext, slot, incoming);
    Extrema(if RescanMin(replaced, incoming, ext.min) then MinOf(after) else ext.min,
            if RescanMax(replaced, incoming, ext.max) then MaxOf(after) else ext.max)
  }

  /** An extremum that neither left with the overwritten slot nor was passed
      by the incoming value is still exact. */
  lemma KeptExtremaExact(ledger: seq<real>, ext: Extrema, slot: nat, incoming: real)
    requires slot < |ledger|
    requires IsMinOf(ext.min, ledger) && IsMaxOf(ext.max, ledger)
    ensures !RescanMin(ledger[slot], incoming, ext.min) ==> IsMinOf(ext.min, ledger[slot := incoming])
    ensures !RescanMax(ledger[slot], incoming, ext.max) ==> IsMaxOf(ext.max, ledger[slot := incoming])
  {
    var after := ledger[slot := incoming];
    if !RescanMin(ledger[slot], incoming, ext.min) {
      var k :| 0 <= k < |ledger| && ledger[k] == ext.min;
      assert after[k] == ext.min;
    }
    if !RescanMax(ledger[slot], incoming, ext.max) {
      var k :| 0 <= k < |ledger| && ledger[k] == ext.max;
      assert after[k] == ext.max;
    }
  }

  /** As written, a previous best below the new generation's minimum leaves
      the minimum stale: ledger [5, 10, 10], elite slot 1, previous best 0.
      The stale minimum 5 is above the entry 0, and the shifted total
      fitness_sum - N * min is 15 - 15 = 0, so resetCumulativeMap divides by
      zero. */
  lemma AsWrittenStaleMinimum()
    ensures var ledger := [5.0, 10.0, 10.0];
      var after := ledger[1 := 0.0];
      var e := ElitismExtremaAsWritten(ledger, Extrema(5.0, 10.0), 1, 0.0);
      && e == Extrema(5.0, 10.0)
      && !IsMinOf(e.min, after)
      && ShiftedTotal(after, e.min, Sum(after)) == 0.0
  {
    var ledger := [5.0, 10.0, 10.0];
    var after := ledger[1 := 0.0];
    assert after == [5.0, 0.0, 10.0];
    assert after[..2] == [5.0, 0.0] && after[..2][..1] == [5.0] && [5.0][..0] == [];
    assert Sum([5.0]) == 5.0;
    assert Sum([5.0, 0.0]) == 5.0;
    assert Sum(after) == 15.0;
    assert MaxOf(after) == 10.0;
  }

  /** As written, a previous best above the new generation's maximum leaves
      the maximum stale: ledger [5, 10, 10], elite slot 0, previous best 20.
      The overwritten 5 was the minimum but not the maximum, so only the
      minimum is re-scanned (to 10) and the maximum stays 10 while slot 0
      holds 20; min == max then makes resetCumulativeMap hand out equal
      shares. The corrected re-scan finds (10, 20). */
  lemma AsWrittenStaleMaximum()
    ensures var ledger := [5.0, 10.0, 10.0];
      var after := ledger[0 := 20.0];
      var e := ElitismExtremaAsWritten(ledger, Extrema(5.0, 10.0), 0, 20.0);
      && e == Extrema(10.0, 10.0)
      && !IsMaxOf(e.max, after) && after[0] > e.max
      && ElitismExtrema(ledger, Extrema(5.0, 10.0), 0, 20.0) == Extrema(10.0, 20.0)
  {
    var ledger := [5.0, 10.0, 10.0];
    var after := ledger[0 := 20.0];
    assert after == [20.0, 10.0, 10.0];
    assert after[..2] == [20.0, 10.0] && after[..2][..1] == [20.0];
    assert MinOf([20.0]) == 20.0;
    assert MinOf([20.0, 10.0]) == 10.0;
    assert MinOf(after) == 10.0;
    assert MaxOf([20.0]) == 20.0;
    assert MaxOf([20.0, 10.0]) == 20.0;
    assert MaxOf(after) == 20.0;
  }

  /** With one more slot the stale minimum gives a negative share and a table
      that falls: ledger [5, 10, 10, 10], elite slot 1, previous best 0, gives
      the cumulative table [0, -1, 0, 1]. */
  lemma AsWrittenFallingTable()
    ensures var ledger := [5.0, 10.0, 10.0, 10.0];
      var after := ledger[1 := 0.0];
      var e := ElitismExtremaAsWritten(ledger, Extrema(5.0, 10.0), 1, 0.0);
      && e == Extrema(5.0, 10.0)
      && TableDefined(after, e.min, e.max, Sum(after))
      && CumulativeTable(after, e.min, e.max, Sum(after)) == [0.0, -1.0, 0.0, 1.0]
  {
    var ledger := [5.0, 10.0, 10.0, 10.0];
    var after := ledger[1 := 0.0];
    assert after == [5.0, 0.0, 10.0, 10.0];
    assert after[..3] == [5.0, 0.0, 10.0] && after[..3][..2] == [5.0, 0.0];
    assert after[..3][..2][..1] == [5.0] && [5.0][..0] == [];
    assert Sum([5.0]) == 5.0;
    assert Sum([5.0, 0.0]) == 5.0;
    assert Sum([5.0, 0.0, 10.0]) == 15.0;
    assert Sum(after) == 25.0;
    assert MaxOf(after) == 10.0;
    var shares := ShiftedShares(after, 5.0, 5.0);
    assert shares == [0.0, -1.0, 1.0, 1.0];
    assert shares[..1] == [0.0] && shares[..2] == [0.0, -1.0] && shares[..3] == [0.0, -1.0, 1.0];
    assert shares[..4] == shares;
    assert [0.0, -1.0][..1] == [0.0] && [0.0, -1.0, 1.0][..2] == [0.0, -1.0] && shares[..3] == shares[..4][..3];
    assert Sum([0.0]) == 0.0;
    assert Sum([0.0, -1.0]) == -1.0;
    assert Sum([0.0, -1.0, 1.0]) == 0.0;
    assert Sum(shares) == 1.0;
    var t := CumulativeTable(after, 5.0, 10.0, 25.0);
    assert t == [Sum(shares[..1]), Sum(shares[..2]), Sum(shares[..3]), Sum(shares[..4])];
  }
}
