/** The fitness ledger of one generation of simple_ga<T> (include/ga.h): the
    fitness of every population slot, the generation's minimum, maximum and
    sum, and the cumulative table that roulette-wheel selection draws against
    (resetCumulativeMap). Slots are indexes into the population; fitness is
    `real`, so everything stated here holds in exact arithmetic. */
module FitnessLedger {

  /** The largest finite double, (2 - 2^-52) * 2^1023. The engine starts the
      generation maximum at -DBL_MAX and the minimum at DBL_MAX. */
  const DBL_MAX: real := 179769313486231570814527423731704356798070567525844996598917476803157260780028538760589558632766878171540458953514382464234321326889464182768467546703537516986049910576551282076245490090389328944075868508455133942304583236903222948165808559332123348274797826204144723168738177180919299881250404026184124858368.0

  /** A fitness a double can hold. */
  predicate Finite(f: real)
  {
    -DBL_MAX <= f <= DBL_MAX
  }

  /** The values a fitness function returns. */
  type Fitness = f: real | Finite(f) witness 0.0

  /** Sum in slot order, as `fitness_sum += t_fitness` accumulates it. */
  function Sum(s: seq<real>): real
  {
    if s == [] then 0.0 else Sum(s[..|s| - 1]) + s[|s| - 1]
  }

  predicate IsMinOf(m: real, s: seq<real>)
  {
    m in s && forall i :: 0 <= i < |s| ==> m <= s[i]
  }

  predicate IsMaxOf(m: real, s: seq<real>)
  {
    m in s && forall i :: 0 <= i < |s| ==> s[i] <= m
  }

  /** The value a full re-scan with `>=` finds (include/ga.h:464-480). */
  function MaxOf(s: seq<real>): (m: real)
    requires s != []
    ensures IsMaxOf(m, s)
  {
    if |s| == 1 then s[0]
    else
      var m' := MaxOf(s[..|s| - 1]);
      assert forall i :: 0 <= i < |s| - 1 ==> s[..|s| - 1][i] == s[i];
      if s[|s| - 1] >= m' then s[|s| - 1] else m'
  }

  /** The value a full re-scan with `<=` finds (include/ga.h:486-500). */
  function MinOf(s: seq<real>): (m: real)
    requires s != []
    ensures IsMinOf(m, s)
  {
    if |s| == 1 then s[0]
    else
      var m' := MinOf(s[..|s| - 1]);
      assert forall i :: 0 <= i < |s| - 1 ==> s[..|s| - 1][i] == s[i];
      if s[|s| - 1] <= m' then s[|s| - 1] else m'
  }

  /** Shares of the degenerate case min == max: 1/N for each of the N slots. */
  function EqualShares(n: nat): seq<real>
    requires n > 0
  {
    seq(n, _ => 1.0 / (n as real))
  }

  /** `fitness_sum - POPULATION_SIZE * gen_min_fitness` (include/ga.h:561). */
  function ShiftedTotal(ledger: seq<real>, min: real, sum: real): real
  {
    sum - (|ledger| as real) * min
  }

  /** Relative share of each slot in the general case: its fitness shifted by
      the minimum, divided by the shifted total. */
  function ShiftedShares(ledger: seq<real>, min: real, total: real): seq<real>
    requires total != 0.0
  {
    seq(|ledger|, i requires 0 <= i < |ledger| => (ledger[i] - min) / total)
  }

  /** Entry i is the running sum of the first i + 1 shares. */
  function PrefixSums(s: seq<real>): seq<real>
  {
    seq(|s|, i requires 0 <= i < |s| => Sum(s[..i + 1]))
  }

  /** The table is defined (no division by zero) for these statistics. */
  predicate TableDefined(ledger: seq<real>, min: real, max: real, sum: real)
  {
    |ledger| > 0 && (min != max ==> ShiftedTotal(ledger, min, sum) != 0.0)
  }

  /** Each slot's share of the wheel: equal shares when min == max, shifted
      shares otherwise. */
  function Shares(ledger: seq<real>, min: real, max: real, sum: real): (s: seq<real>)
    requires TableDefined(ledger, min, max, sum)
    ensures |s| == |ledger|
  {
    if min == max then EqualShares(|ledger|)
    else ShiftedShares(ledger, min, ShiftedTotal(ledger, min, sum))
  }

  /** The cumulative table resetCumulativeMap builds (include/ga.h:535-585),
      one entry per slot in slot order. */
  function CumulativeTable(ledger: seq<real>, min: real, max: real, sum: real): (t: seq<real>)
    requires TableDefined(ledger, min, max, sum)
    ensures |t| == |ledger|
  {
    PrefixSums(Shares(ledger, min, max, sum))
  }

  /** The same table stated without division: scaled by the wheel's
      denominator (N when min == max, the shifted total otherwise), entry i
      is the running numerator of slots 0..i. */
  predicate IsTableOf(t: seq<real>, ledger: seq<real>, min: real, max: real, sum: real)
  {
    && |t| == |ledger|
    && if min == max then
         forall i :: 0 <= i < |t| ==> t[i] * (|ledger| as real) == (i + 1) as real
       else
         forall i :: 0 <= i < |t| ==>
           t[i] * ShiftedTotal(ledger, min, sum) == ShiftedTotal(ledger[..i + 1], min, Sum(ledger[..i + 1]))
  }

  // ---------------------------------------------------------------------
  // Sums

  lemma SumPrefixStep(s: seq<real>, k: nat)
    requires k < |s|
    ensures Sum(s[..k + 1]) == Sum(s[..k]) + s[k]
  {
    assert s[..k + 1][..k] == s[..k];
  }

  /** k equal terms c sum to k * c. */
  lemma {:induction false} SumConstant(s: seq<real>, c: real)
    requires forall i :: 0 <= i < |s| ==> s[i] == c
    ensures Sum(s) == (|s| as real) * c
  {
    if s != [] {
      SumConstant(s[..|s| - 1], c);
    }
  }

  /** Overwriting one slot changes the sum by the difference, which is how
      elitism adjusts fitness_sum (include/ga.h:459). */
  lemma {:induction false} SumUpdate(s: seq<real>, k: nat, v: real)
    requires k < |s|
    ensures Sum(s[k := v]) == Sum(s) + (v - s[k])
  {
    var s' := s[k := v];
    var n := |s|;
    if k == n - 1 {
      assert s'[..n - 1] == s[..n - 1];
    } else {
      assert s'[..n - 1] == s[..n - 1][k := v];
      SumUpdate(s[..n - 1], k, v);
    }
  }

  /** A sum of terms none below m is at least |s| * m. */
  lemma {:induction false} SumAtLeast(s: seq<real>, m: real)
    requires forall i :: 0 <= i < |s| ==> m <= s[i]
    ensures Sum(s) >= (|s| as real) * m
  {
    if s != [] {
      SumAtLeast(s[..|s| - 1], m);
    }
  }

  /** Shifting by the minimum, one slot alone already reaches its own shift. */
  lemma {:induction false} ShiftedTotalAtLeast(s: seq<real>, m: real, k: nat)
    requires forall i :: 0 <= i < |s| ==> m <= s[i]
    requires k < |s|
    ensures ShiftedTotal(s, m, Sum(s)) >= s[k] - m
  {
    var n := |s|;
    var init := s[..n - 1];
    var below := ((n - 1) as real) * m;
    assert Sum(s) == Sum(init) + s[n - 1];
    MulSucc(n - 1, m);
    assert ShiftedTotal(s, m, Sum(s)) == (Sum(init) - below) + (s[n - 1] - m);
    if k == n - 1 {
      SumAtLeast(init, m);
      assert Sum(init) - below >= 0.0;
    } else {
      ShiftedTotalAtLeast(init, m, k);
      assert init[k] == s[k];
      assert Sum(init) - below >= s[k] - m;
      assert s[n - 1] - m >= 0.0;
    }
  }

  /** With min below every entry, max attained and min < max, the shifted total is positive. */
  lemma ShiftedTotalPositive(ledger: seq<real>, min: real, max: real, sum: real)
    requires forall i :: 0 <= i < |ledger| ==> min <= ledger[i]
    requires max in ledger && min < max && sum == Sum(ledger)
    ensures ShiftedTotal(ledger, min, sum) >= max - min > 0.0
  {
    var k :| 0 <= k < |ledger| && ledger[k] == max;
    ShiftedTotalAtLeast(ledger, min, k);
  }

  /** Exact statistics never make resetCumulativeMap divide by zero. */
  lemma ExactStatsTableDefined(ledger: seq<real>, min: real, max: real, sum: real)
    requires IsMinOf(min, ledger) && IsMaxOf(max, ledger) && sum == Sum(ledger)
    ensures TableDefined(ledger, min, max, sum)
  {
    if min != max {
      ShiftedTotalPositive(ledger, min, max, sum);
    }
  }

  lemma {:induction false} SumShiftedShares(ledger: seq<real>, min: real, total: real)
    requires total != 0.0
    ensures Sum(ShiftedShares(ledger, min, total)) == ShiftedTotal(ledger, min, Sum(ledger)) / total
  {
    var sh := ShiftedShares(ledger, min, total);
    if ledger != [] {
      var n := |ledger|;
      var init := ledger[..n - 1];
      assert sh[..n - 1] == ShiftedShares(init, min, total);
      SumShiftedShares(init, min, total);
      var a := ShiftedTotal(init, min, Sum(init));
      var b := ledger[n - 1] - min;
      assert Sum(sh) == Sum(sh[..n - 1]) + sh[n - 1];
      assert sh[n - 1] == b / total;
      DivAdd(a, b, total);
      ShiftedTotalSnoc(ledger, min);
    }
  }

  /** The shifted total grows by the last entry's shift. */
  lemma ShiftedTotalSnoc(ledger: seq<real>, min: real)
    requires ledger != []
    ensures var init := ledger[..|ledger| - 1];
      ShiftedTotal(ledger, min, Sum(ledger)) == ShiftedTotal(init, min, Sum(init)) + (ledger[|ledger| - 1] - min)
  {
    var n := |ledger|;
    var init := ledger[..n - 1];
    assert Sum(ledger) == Sum(init) + ledger[n - 1];
    MulSucc(n - 1, min);
  }

  lemma MulSucc(k: nat, x: real)
    ensures ((k + 1) as real) * x == (k as real) * x + x
  {
  }

  lemma DivAdd(a: real, b: real, t: real)
    requires t != 0.0
    ensures a / t + b / t == (a + b) / t
  {
  }

  /** k copies of 1/n add up to k/n; for k < k' this is strictly smaller. */
  lemma EqualShareArithmetic(k: nat, k': nat, n: nat)
    requires 0 < n
    ensures (k as real) * (1.0 / (n as real)) == (k as real) / (n as real)
    ensures k < k' ==> (k as real) / (n as real) < (k' as real) / (n as real)
    ensures (n as real) / (n as real) == 1.0
  {
  }

  /** Prefix sums of non-negative terms never decrease. */
  lemma {:induction false} PrefixSumsMonotone(s: seq<real>, i: nat, j: nat)
    requires forall k :: 0 <= k < |s| ==> s[k] >= 0.0
    requires i <= j <= |s|
    ensures Sum(s[..i]) <= Sum(s[..j])
  {
    if i < j {
      PrefixSumsMonotone(s, i, j - 1);
      SumPrefixStep(s, j - 1);
    }
  }

  // ---------------------------------------------------------------------
  // Properties of the table

  /** Degenerate branch (include/ga.h:537-555): entry i is (i + 1) / N, the
      table strictly increases and its last entry is exactly 1. */
  lemma EqualShareTable(ledger: seq<real>, min: real, max: real, sum: real)
    requires |ledger| > 0 && min == max
    ensures TableDefined(ledger, min, max, sum)
    ensures var t := CumulativeTable(ledger, min, max, sum);
      && (forall i :: 0 <= i < |t| ==> t[i] == ((i + 1) as real) / (|ledger| as real))
      && (forall i, j :: 0 <= i < j < |t| ==> t[i] < t[j])
      && t[|t| - 1] == 1.0
  {
    var n := |ledger|;
    var shares := EqualShares(n);
    var t := CumulativeTable(ledger, min, max, sum);
    forall i | 0 <= i < n
      ensures t[i] == ((i + 1) as real) / (n as real)
    {
      SumConstant(shares[..i + 1], 1.0 / (n as real));
      EqualShareArithmetic(i + 1, i + 1, n);
    }
    forall i, j | 0 <= i < j < n
      ensures t[i] < t[j]
    {
      EqualShareArithmetic(i + 1, j + 1, n);
    }
    EqualShareArithmetic(n, n, n);
  }

  /** Shifted shares are non-negative and add up to 1. */
  lemma ShiftedSharesDistribution(ledger: seq<real>, min: real, max: real, sum: real)
    requires forall i :: 0 <= i < |ledger| ==> min <= ledger[i]
    requires max in ledger && min < max && sum == Sum(ledger)
    ensures TableDefined(ledger, min, max, sum)
    ensures var shares := Shares(ledger, min, max, sum);
      (forall k :: 0 <= k < |shares| ==> shares[k] >= 0.0) && Sum(shares) == 1.0
  {
    ShiftedTotalPositive(ledger, min, max, sum);
    var total := ShiftedTotal(ledger, min, sum);
    var shares := ShiftedShares(ledger, min, total);
    assert Shares(ledger, min, max, sum) == shares;
    forall k | 0 <= k < |shares|
      ensures shares[k] >= 0.0
    {
      NonNegativeQuotient(ledger[k] - min, total);
    }
    SumShiftedShares(ledger, min, total);
    DivSelf(total);
  }

  lemma DivSelf(t: real)
    requires t != 0.0
    ensures t / t == 1.0
  {
  }

  lemma NonNegativeQuotient(a: real, t: real)
    requires a >= 0.0 && t > 0.0
    ensures a / t >= 0.0
  {
  }

  /** The running sums of non-negative shares that add up to 1 form a wheel:
      entries in [0, 1], non-decreasing, the last entry 1. */
  lemma PrefixSumsWheel(shares: seq<real>)
    requires shares != []
    requires forall k :: 0 <= k < |shares| ==> shares[k] >= 0.0
    requires Sum(shares) == 1.0
    ensures var t := PrefixSums(shares);
      && (forall i :: 0 <= i < |t| ==> 0.0 <= t[i] <= 1.0)
      && (forall i, j :: 0 <= i <= j < |t| ==> t[i] <= t[j])
      && t[|t| - 1] == 1.0
  {
    var n := |shares|;
    var t := PrefixSums(shares);
    assert shares[..n] == shares;
    forall i, j | 0 <= i <= j < n
      ensures t[i] <= t[j]
    {
      PrefixSumsMonotone(shares, i + 1, j + 1);
    }
    forall i | 0 <= i < n
      ensures 0.0 <= t[i] <= 1.0
    {
      PrefixSumsMonotone(shares, 0, i + 1);
      PrefixSumsMonotone(shares, i + 1, n);
    }
  }

  /** General branch (include/ga.h:559-580): with min at or below every entry,
      max attained above it and fitness_sum the ledger's sum, every entry lies
      in [0, 1], the table never decreases in slot order and its last entry
      is exactly 1. */
  lemma GeneralTable(ledger: seq<real>, min: real, max: real, sum: real)
    requires forall i :: 0 <= i < |ledger| ==> min <= ledger[i]
    requires max in ledger && min < max && sum == Sum(ledger)
    ensures TableDefined(ledger, min, max, sum)
    ensures var t := CumulativeTable(ledger, min, max, sum);
      && (forall i :: 0 <= i < |t| ==> 0.0 <= t[i] <= 1.0)
      && (forall i, j :: 0 <= i <= j < |t| ==> t[i] <= t[j])
      && t[|t| - 1] == 1.0
  {
    ShiftedSharesDistribution(ledger, min, max, sum);
    PrefixSumsWheel(Shares(ledger, min, max, sum));
  }

  /** Wherever the table is defined, the scaled statement pins it down
      exactly: it holds of the table and of nothing else. */
  lemma TableOfIsCumulativeTable(t: seq<real>, ledger: seq<real>, min: real, max: real, sum: real)
    requires TableDefined(ledger, min, max, sum)
    ensures IsTableOf(t, ledger, min, max, sum) <==> t == CumulativeTable(ledger, min, max, sum)
  {
    var c := CumulativeTable(ledger, min, max, sum);
    CumulativeTableScaled(ledger, min, max, sum);
    if IsTableOf(t, ledger, min, max, sum) {
      var d := if min == max then |ledger| as real else ShiftedTotal(ledger, min, sum);
      forall i | 0 <= i < |t|
        ensures t[i] == c[i]
      {
        MulCancel(t[i], c[i], d);
      }
    }
  }

  /** The table satisfies its scaled statement. */
  lemma CumulativeTableScaled(ledger: seq<real>, min: real, max: real, sum: real)
    requires TableDefined(ledger, min, max, sum)
    ensures IsTableOf(CumulativeTable(ledger, min, max, sum), ledger, min, max, sum)
  {
    if min == max {
      EqualTableScaled(ledger, min, max, sum);
    } else {
      ShiftedTableScaled(ledger, min, max, sum);
    }
  }

  /** Degenerate branch: entry i, times N, is i + 1. */
  lemma EqualTableScaled(ledger: seq<real>, min: real, max: real, sum: real)
    requires |ledger| > 0 && min == max
    ensures TableDefined(ledger, min, max, sum)
    ensures var c := CumulativeTable(ledger, min, max, sum);
      forall i :: 0 <= i < |c| ==> c[i] * (|ledger| as real) == (i + 1) as real
  {
    var c := CumulativeTable(ledger, min, max, sum);
    var n := |ledger|;
    EqualShareTable(ledger, min, max, sum);
    forall i | 0 <= i < n
      ensures c[i] * (n as real) == (i + 1) as real
    {
      DivMul((i + 1) as real, n as real);
    }
  }

  /** General branch: entry i, times the shifted total, is the shifted total of slots 0..i. */
  lemma ShiftedTableScaled(ledger: seq<real>, min: real, max: real, sum: real)
    requires TableDefined(ledger, min, max, sum) && min != max
    ensures var c := CumulativeTable(ledger, min, max, sum);
      forall i :: 0 <= i < |c| ==>
        c[i] * ShiftedTotal(ledger, min, sum) == ShiftedTotal(ledger[..i + 1], min, Sum(ledger[..i + 1]))
  {
    forall i | 0 <= i < |ledger|
      ensures CumulativeTable(ledger, min, max, sum)[i] * ShiftedTotal(ledger, min, sum)
        == ShiftedTotal(ledger[..i + 1], min, Sum(ledger[..i + 1]))
    {
      ShiftedEntryScaled(ledger, min, max, sum, i);
    }
  }

  /** One entry of the general branch. */
  lemma ShiftedEntryScaled(ledger: seq<real>, min: real, max: real, sum: real, i: nat)
    requires TableDefined(ledger, min, max, sum) && min != max && i < |ledger|
    ensures CumulativeTable(ledger, min, max, sum)[i] * ShiftedTotal(ledger, min, sum)
      == ShiftedTotal(ledger[..i + 1], min, Sum(ledger[..i + 1]))
  {
    var total := ShiftedTotal(ledger, min, sum);
    var shares := ShiftedShares(ledger, min, total);
    var prefix := ledger[..i + 1];
    var entry := CumulativeTable(ledger, min, max, sum)[i];
    assert entry == Sum(shares[..i + 1]);
    assert shares[..i + 1] == ShiftedShares(prefix, min, total);
    SumShiftedShares(prefix, min, total);
    DivMul(ShiftedTotal(prefix, min, Sum(prefix)), total);
  }

  lemma DivMul(a: real, d: real)
    requires d != 0.0
    ensures (a / d) * d == a
  {
  }

  lemma MulCancel(a: real, b: real, d: real)
    requires d != 0.0 && a * d == b * d
    ensures a == b
  {
  }
}
