/** Roulette-wheel parent selection of simple_ga<T> (include/ga.h:587-687).
    The population is addressed by slot, so "the same individual" is the same
    slot, and a null pointer is `None`. The draw in [0, 1) that the source
    takes from its roulette engine is a parameter. */
module Selector {
  import opened Wrappers
  import opened FitnessLedger

  function Abs(x: real): real
  {
    if x < 0.0 then -x else x
  }

  // ---------------------------------------------------------------------
  // Similar-fit substitute (include/ga.h:659-687)

  /** Some slot other than k has a fitness closer to k's than the initial
      `least_abs_diff` of DBL_MAX. */
  predicate HasSimilarFit(ledger: seq<real>, k: nat)
    requires k < |ledger|
  {
    exists i :: 0 <= i < |ledger| && i != k && Abs(ledger[k] - ledger[i]) < DBL_MAX
  }

  /** j is the substitute for k: a slot other than k, closest in fitness to k,
      and the earliest such slot (the scan only moves on a strictly smaller
      difference). */
  predicate IsSimilarFit(ledger: seq<real>, k: nat, j: nat)
    requires k < |ledger|
  {
    && j < |ledger| && j != k
    && Abs(ledger[k] - ledger[j]) < DBL_MAX
    && (forall i :: 0 <= i < |ledger| && i != k ==> Abs(ledger[k] - ledger[j]) <= Abs(ledger[k] - ledger[i]))
    && (forall i :: 0 <= i < j && i != k ==> Abs(ledger[k] - ledger[j]) < Abs(ledger[k] - ledger[i]))
  }

  /** The description of the substitute leaves no choice. */
  lemma SimilarFitUnique(ledger: seq<real>, k: nat, j1: nat, j2: nat)
    requires k < |ledger|
    requires IsSimilarFit(ledger, k, j1) && IsSimilarFit(ledger, k, j2)
    ensures j1 == j2
  {
  }

  method SelectSimilarFit(ledger: seq<real>, k: nat) returns (r: Option<nat>)
    requires k < |ledger|
    ensures r.Some? <==> HasSimilarFit(ledger, k)
    ensures r.Some? ==> IsSimilarFit(ledger, k, r.value)
  {
    var indivFitness := ledger[k];
    var leastAbsDiff := DBL_MAX;
    r := None;
    for j := 0 to |ledger|
      invariant r.None? ==> leastAbsDiff == DBL_MAX
      invariant r.None? ==> forall i :: 0 <= i < j && i != k ==> Abs(indivFitness - ledger[i]) >= DBL_MAX
      invariant r.Some? ==> r.value < j && r.value != k
      invariant r.Some? ==> leastAbsDiff == Abs(indivFitness - ledger[r.value]) < DBL_MAX
      invariant r.Some? ==> forall i :: 0 <= i < j && i != k ==> leastAbsDiff <= Abs(indivFitness - ledger[i])
      invariant r.Some? ==> forall i :: 0 <= i < r.value && i != k ==> leastAbsDiff < Abs(indivFitness - ledger[i])
    {
      if j != k {
        var absFitnessDiff := Abs(indivFitness - ledger[j]);
        if absFitnessDiff < leastAbsDiff {
          r := Some(j);
          leastAbsDiff := absFitnessDiff;
        }
      }
    }
  }

  // ---------------------------------------------------------------------
  // The wheel (include/ga.h:613-653)

  /** First slot at or after i whose cumulative entry exceeds r, or |cumulative|. */
  function FirstAbove(cumulative: seq<real>, r: real, i: nat): nat
    requires i <= |cumulative|
    decreases |cumulative| - i
  {
    if i == |cumulative| then i
    else if cumulative[i] > r then i
    else FirstAbove(cumulative, r, i + 1)
  }

  /** The slot the wheel lands on for draw r: the last slot when r reaches the
      last entry (a draw of 1, or a last entry rounded below 1), otherwise the
      first slot whose entry exceeds r. */
  function WheelSlot(cumulative: seq<real>, r: real): (s: nat)
    requires |cumulative| > 0
    ensures s < |cumulative|
  {
    if r >= cumulative[|cumulative| - 1] then |cumulative| - 1
    else
      FirstAboveIsFirst(cumulative, r, 0);
      FirstAbove(cumulative, r, 0)
  }

  lemma {:induction false} FirstAboveIsFirst(cumulative: seq<real>, r: real, i: nat)
    requires i <= |cumulative|
    requires forall k :: 0 <= k < i ==> cumulative[k] <= r
    decreases |cumulative| - i
    ensures var s := FirstAbove(cumulative, r, i);
      && s <= |cumulative|
      && (s < |cumulative| ==> r < cumulative[s])
      && (forall k :: 0 <= k < s ==> cumulative[k] <= r)
  {
    if i < |cumulative| && cumulative[i] <= r {
      FirstAboveIsFirst(cumulative, r, i + 1);
    }
  }

  /** The wheel always lands on a slot; below the last entry it is the first
      slot whose entry exceeds the draw. */
  lemma WheelSlotSpec(cumulative: seq<real>, r: real)
    requires |cumulative| > 0
    ensures var s := WheelSlot(cumulative, r);
      && s < |cumulative|
      && (r >= cumulative[|cumulative| - 1] ==> s == |cumulative| - 1)
      && (r < cumulative[|cumulative| - 1] ==>
            r < cumulative[s] && forall k :: 0 <= k < s ==> cumulative[k] <= r)
  {
    FirstAboveIsFirst(cumulative, r, 0);
  }

  /** Selection is proportional to the table: on a non-decreasing table and a
      draw below the last entry, slot i is chosen exactly when the draw lies in
      [entry i-1, entry i), an interval as wide as slot i's share. */
  lemma WheelSlotInterval(cumulative: seq<real>, r: real, i: nat)
    requires i < |cumulative|
    requires forall a, b :: 0 <= a <= b < |cumulative| ==> cumulative[a] <= cumulative[b]
    requires r < cumulative[|cumulative| - 1]
    ensures WheelSlot(cumulative, r) == i <==> (i == 0 || cumulative[i - 1] <= r) && r < cumulative[i]
  {
    WheelSlotSpec(cumulative, r);
  }

  /** What rouletteWheelSelection returns for draw r, given the slot that must
      not be chosen again: the wheel's slot, or its similar-fit substitute when
      it is the excluded one. */
  predicate IsWheelChoice(cumulative: seq<real>, ledger: seq<real>, r: real, excluded: Option<nat>, parent: Option<nat>)
    requires |cumulative| == |ledger| > 0
  {
    var s := WheelSlot(cumulative, r);
    if excluded == Some(s) then
      (parent.Some? <==> HasSimilarFit(ledger, s)) && (parent.Some? ==> IsSimilarFit(ledger, s, parent.value))
    else parent == Some(s)
  }

  method RouletteWheelSelection(cumulative: seq<real>, ledger: seq<real>, r: real, excluded: Option<nat>)
    returns (parent: Option<nat>)
    requires |cumulative| == |ledger| > 0
    ensures IsWheelChoice(cumulative, ledger, r, excluded, parent)
    ensures parent.Some? ==> parent.value < |ledger| && Some(parent.value) != excluded
  {
    WheelSlotSpec(cumulative, r);
    var last := |cumulative| - 1;
    parent := None;
    if r >= cumulative[last] {
      if Some(last) == excluded {
        parent := SelectSimilarFit(ledger, last);
      } else {
        parent := Some(last);
      }
    } else {
      for i := 0 to |cumulative|
        invariant forall k :: 0 <= k < i ==> cumulative[k] <= r
        invariant parent == None
      {
        if cumulative[i] > r {
          assert i == WheelSlot(cumulative, r);
          if Some(i) == excluded {
            parent := SelectSimilarFit(ledger, i);
          } else {
            parent := Some(i);
          }
          break;
        }
      }
    }
  }

  /** Two parents as selectCrossOverParents picks them: the first from draw r1
      with nothing excluded, the second from draw r2 excluding the first; if
      either is null, slots 0 and 1 instead. */
  predicate IsParentPair(cumulative: seq<real>, ledger: seq<real>, r1: real, r2: real, p1: nat, p2: nat)
    requires |cumulative| == |ledger| >= 2
  {
    var a := WheelSlot(cumulative, r1);
    var b := WheelSlot(cumulative, r2);
    if b != a then p1 == a && p2 == b
    else if HasSimilarFit(ledger, a) then p1 == a && IsSimilarFit(ledger, a, p2)
    else p1 == 0 && p2 == 1
  }

  method SelectCrossOverParents(cumulative: seq<real>, ledger: seq<real>, r1: real, r2: real)
    returns (p1: nat, p2: nat)
    requires |cumulative| == |ledger| >= 2
    ensures IsParentPair(cumulative, ledger, r1, r2, p1, p2)
    ensures p1 < |ledger| && p2 < |ledger| && p1 != p2
  {
    var parent1 := RouletteWheelSelection(cumulative, ledger, r1, None);
    var parent2 := RouletteWheelSelection(cumulative, ledger, r2, parent1);
    if parent1.None? || parent2.None? {
      p1, p2 := 0, 1;
    } else {
      p1, p2 := parent1.value, parent2.value;
    }
  }
}
