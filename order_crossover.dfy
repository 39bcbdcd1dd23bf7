/** The one-point order crossover of the n-queens GA
    (src/examples/n_queen/nqueen_ga.cpp:140-217). After the coin orders the
    parents, the offspring copies the first parent up to the crossover
    point, then copies the second parent from the point on wherever the
    value is still unused, leaving a hole otherwise; the holes are filled
    with the values never taken, in the order the second parent holds
    them. When the numbers of holes and of unassigned values differ, the
    first parent is returned. */
module OrderCrossover {
  import NQueen

  /** The parents as ordered by the coin: below 0.5 they keep their order. */
  function First(parent1: seq<int>, parent2: seq<int>, shuffle: real): seq<int>
  {
    if shuffle < 0.5 then parent1 else parent2
  }

  function Second(parent1: seq<int>, parent2: seq<int>, shuffle: real): seq<int>
  {
    if shuffle < 0.5 then parent2 else parent1
  }

  /** The values taken before position i of the second pass is looked
      at: the first parent's prefix and the second parent's [p, i). */
  function Seen(first: seq<int>, second: seq<int>, p: nat, i: nat): seq<int>
    requires p <= |first| && p <= i <= |second|
  {
    first[..p] + second[p..i]
  }

  /** The positions in [p, i) left unassigned: those whose value in the
      second parent was already seen. */
  function Holes(first: seq<int>, second: seq<int>, p: nat, i: nat): (h: seq<nat>)
    requires p <= |first| && p <= i <= |second|
    ensures forall k :: 0 <= k < |h| ==> p <= h[k] < i
    decreases i
  {
    if i == p then []
    else Holes(first, second, p, i - 1) + (if Kept(first, second, p, i - 1) then [] else [i - 1])
  }

  /** The values of values[..k] not in seen, in order. */
  function Leftovers(values: seq<int>, seen: seq<int>, k: nat): (l: seq<int>)
    requires k <= |values|
  {
    if k == 0 then []
    else Leftovers(values, seen, k - 1) + (if values[k - 1] in seen then [] else [values[k - 1]])
  }

  /** The unassigned values: those of the second parent never taken. */
  function Unassigned(first: seq<int>, second: seq<int>, p: nat): seq<int>
    requires p <= |first| && p <= |second|
  {
    Leftovers(second, Seen(first, second, p, |second|), |second|)
  }

  /** The guard of the fallback: holes and unassigned values differ in
      number. */
  predicate Mismatch(first: seq<int>, second: seq<int>, p: nat)
    requires p <= |first| && p <= |second|
  {
    |Holes(first, second, p, |second|)| != |Unassigned(first, second, p)|
  }

  /** Position i (at or past the point) keeps the second parent's value:
      the value was not seen before. */
  predicate Kept(first: seq<int>, second: seq<int>, p: nat, i: nat)
    requires p <= |first| && p <= i < |second|
  {
    second[i] !in Seen(first, second, p, i)
  }

  /** r is the order-crossover offspring of first and second at p. */
  predicate IsOrderOffspring(first: seq<int>, second: seq<int>, p: nat, r: seq<int>)
    requires p <= |first| == |second|
  {
    var n := |first|;
    var holes := Holes(first, second, p, n);
    var unassigned := Unassigned(first, second, p);
    && |r| == n
    && |holes| == |unassigned|
    && (forall i :: 0 <= i < p ==> r[i] == first[i])
    && (forall i :: p <= i < n && Kept(first, second, p, i) ==> r[i] == second[i])
    && (forall k :: 0 <= k < |holes| ==> r[holes[k]] == unassigned[k])
  }

  /** onePointOrderCrossover with the coin and the point as parameters. The
      assigned map becomes the set of values mapped to true. */
  method OnePointOrderCrossover(parent1In: seq<int>, parent2In: seq<int>, n: nat, shuffle: real, point: nat)
    returns (indiv: seq<int>)
    requires |parent1In| == n && |parent2In| == n && 1 <= point <= n - 1
    ensures var first, second := First(parent1In, parent2In, shuffle), Second(parent1In, parent2In, shuffle);
      (Mismatch(first, second, point) ==> indiv == first)
      && (!Mismatch(first, second, point) ==> IsOrderOffspring(first, second, point, indiv))
  {
    var parent1: seq<int>, parent2: seq<int>;
    if shuffle < 0.5 {
      parent1, parent2 := parent1In, parent2In;
    } else {
      parent1, parent2 := parent2In, parent1In;
    }
    var buffer := new int[n];
    var taken := CopyPrefix(buffer, parent1, point);
    var unassignedPositions;
    unassignedPositions, taken := CopyUnused(buffer, parent1, parent2, point, taken);
    var unassignedValues := CollectUnassigned(parent2, Seen(parent1, parent2, point, n), taken);
    if |unassignedPositions| != |unassignedValues| {
      return parent1;
    }
    FillHoles(buffer, parent1, parent2, point, unassignedPositions, unassignedValues);
    indiv := buffer[..];
  }

  /** Copy the first parent up to the point. */
  method CopyPrefix(buffer: array<int>, parent1: seq<int>, point: nat) returns (taken: set<int>)
    requires point <= |parent1| && point <= buffer.Length
    modifies buffer
    ensures forall i :: 0 <= i < point ==> buffer[i] == parent1[i]
    ensures forall x :: x in taken <==> x in parent1[..point]
  {
    taken := {};
    for i := 0 to point
      invariant forall k :: 0 <= k < i ==> buffer[k] == parent1[k]
      invariant forall x :: x in taken <==> x in parent1[..i]
    {
      var ithValue := parent1[i];
      buffer[i] := ithValue;
      assert parent1[..i + 1] == parent1[..i] + [ithValue];
      taken := taken + {ithValue};
    }
  }

  /** Copy the second parent from the point on where the value is unused,
      recording the positions left unassigned. */
  method CopyUnused(buffer: array<int>, parent1: seq<int>, parent2: seq<int>, point: nat, taken0: set<int>)
    returns (positions: seq<nat>, taken: set<int>)
    requires point <= |parent1| && point <= |parent2| == buffer.Length
    requires forall x :: x in taken0 <==> x in parent1[..point]
    requires forall i :: 0 <= i < point ==> buffer[i] == parent1[i]
    modifies buffer
    ensures forall i :: 0 <= i < point ==> buffer[i] == parent1[i]
    ensures positions == Holes(parent1, parent2, point, |parent2|)
    ensures forall x :: x in taken <==> x in Seen(parent1, parent2, point, |parent2|)
    ensures forall i :: point <= i < |parent2| && Kept(parent1, parent2, point, i) ==> buffer[i] == parent2[i]
  {
    positions, taken := [], taken0;
    assert Seen(parent1, parent2, point, point) == parent1[..point];
    for i := point to |parent2|
      invariant forall k :: 0 <= k < point ==> buffer[k] == parent1[k]
      invariant positions == Holes(parent1, parent2, point, i)
      invariant forall x :: x in taken <==> x in Seen(parent1, parent2, point, i)
      invariant forall k :: point <= k < i && Kept(parent1, parent2, point, k) ==> buffer[k] == parent2[k]
    {
      var ithValue := parent2[i];
      UnusedStep(parent1, parent2, point, i, taken);
      if ithValue in taken {
        positions := positions + [i];
      } else {
        buffer[i] := ithValue;
        taken := taken + {ithValue};
      }
    }
  }

  lemma SeenStep(first: seq<int>, second: seq<int>, p: nat, i: nat)
    requires p <= |first| && p <= i < |second|
    ensures Seen(first, second, p, i + 1) == Seen(first, second, p, i) + [second[i]]
  {
    assert second[p..i + 1] == second[p..i] + [second[i]];
  }

  /** One step of the second pass: the value is in the taken set exactly
      when it is not kept, the holes grow by the position if it is not
      kept, and the taken set grows by the value. */
  lemma UnusedStep(first: seq<int>, second: seq<int>, p: nat, i: nat, taken: set<int>)
    requires p <= |first| && p <= i < |second|
    requires forall x :: x in taken <==> x in Seen(first, second, p, i)
    ensures second[i] in taken <==> !Kept(first, second, p, i)
    ensures Holes(first, second, p, i + 1) == Holes(first, second, p, i) + (if Kept(first, second, p, i) then [] else [i])
    ensures forall x :: (x in taken || x == second[i]) <==> x in Seen(first, second, p, i + 1)
  {
    var v := second[i];
    assert v in taken <==> v in Seen(first, second, p, i);
    SeenStep(first, second, p, i);
    forall x
      ensures (x in taken || x == second[i]) <==> x in Seen(first, second, p, i + 1)
    {
      assert x in Seen(first, second, p, i) + [second[i]] <==> x in Seen(first, second, p, i) || x == second[i];
    }
  }

  /** Collect, over the whole second parent, the values never assigned. */
  method CollectUnassigned(parent2: seq<int>, ghost seen: seq<int>, taken: set<int>) returns (values: seq<int>)
    requires forall x :: x in taken <==> x in seen
    ensures values == Leftovers(parent2, seen, |parent2|)
  {
    values := [];
    for k := 0 to |parent2|
      invariant values == Leftovers(parent2, seen, k)
    {
      var value := parent2[k];
      if value !in taken {
        values := values + [value];
      }
    }
  }

  /** Fill the holes in order, each with the front of the unassigned
      values, which is then erased. */
  method FillHoles(buffer: array<int>, parent1: seq<int>, parent2: seq<int>, point: nat,
                   positions: seq<nat>, values: seq<int>)
    requires point <= |parent1| == |parent2| == buffer.Length
    requires positions == Holes(parent1, parent2, point, |parent2|) && |positions| == |values|
    modifies buffer
    ensures forall i :: 0 <= i < point ==> buffer[i] == old(buffer[i])
    ensures forall i :: point <= i < |parent2| && Kept(parent1, parent2, point, i) ==> buffer[i] == old(buffer[i])
    ensures forall k :: 0 <= k < |positions| ==> buffer[positions[k]] == values[k]
  {
    HolesIncreasing(parent1, parent2, point, |parent2|);
    var remaining := values;
    for k := 0 to |positions|
      invariant remaining == values[k..]
      invariant forall i :: 0 <= i < point ==> buffer[i] == old(buffer[i])
      invariant forall i :: point <= i < |parent2| && Kept(parent1, parent2, point, i) ==> buffer[i] == old(buffer[i])
      invariant forall t :: 0 <= t < k ==> buffer[positions[t]] == values[t]
    {
      HoleIsUnassigned(parent1, parent2, point, |parent2|, k);
      buffer[positions[k]] := remaining[0];
      remaining := remaining[1..];
    }
  }

  /** The holes are recorded in increasing order. */
  lemma {:induction false} HolesIncreasing(first: seq<int>, second: seq<int>, p: nat, i: nat)
    requires p <= |first| && p <= i <= |second|
    ensures forall k1, k2 :: 0 <= k1 < k2 < |Holes(first, second, p, i)| ==>
      Holes(first, second, p, i)[k1] < Holes(first, second, p, i)[k2]
    decreases i
  {
    if i > p {
      HolesIncreasing(first, second, p, i - 1);
      var prev, h := Holes(first, second, p, i - 1), Holes(first, second, p, i);
      assert h == prev + (if Kept(first, second, p, i - 1) then [] else [i - 1]);
      forall k1, k2 | 0 <= k1 < k2 < |h|
        ensures h[k1] < h[k2]
      {
        assert h[k1] == prev[k1];
        if k2 < |prev| {
          assert h[k2] == prev[k2];
          assert prev[k1] < prev[k2];
        } else {
          assert h[k2] == i - 1;
          assert prev[k1] < i - 1;
        }
      }
    }
  }

  /** A hole is a position whose second-parent value was already seen. */
  lemma {:induction false} HoleIsUnassigned(first: seq<int>, second: seq<int>, p: nat, i: nat, k: nat)
    requires p <= |first| && p <= i <= |second|
    requires k < |Holes(first, second, p, i)|
    ensures var h := Holes(first, second, p, i)[k];
      p <= h < i && !Kept(first, second, p, h)
    decreases i
  {
    var prev := Holes(first, second, p, i - 1);
    if k < |prev| {
      HoleIsUnassigned(first, second, p, i - 1, k);
    }
  }

  /** Every position in [p, i) whose value was already seen is a hole. */
  lemma {:induction false} UnassignedIsHole(first: seq<int>, second: seq<int>, p: nat, i: nat, x: nat)
    requires p <= |first| && p <= x < i <= |second|
    requires !Kept(first, second, p, x)
    ensures x in Holes(first, second, p, i)
    decreases i
  {
    if x < i - 1 {
      UnassignedIsHole(first, second, p, i - 1, x);
    }
  }

  lemma HoleIndex(first: seq<int>, second: seq<int>, p: nat, i: nat) returns (k: nat)
    requires p <= i < |first| == |second|
    requires !Kept(first, second, p, i)
    ensures k < |Holes(first, second, p, |first|)| && Holes(first, second, p, |first|)[k] == i
  {
    UnassignedIsHole(first, second, p, |first|, i);
    var holes := Holes(first, second, p, |first|);
    k :| 0 <= k < |holes| && holes[k] == i;
  }

  /** The offspring is determined: there is at most one. */
  lemma OrderOffspringUnique(first: seq<int>, second: seq<int>, p: nat, r1: seq<int>, r2: seq<int>)
    requires p <= |first| == |second|
    requires IsOrderOffspring(first, second, p, r1) && IsOrderOffspring(first, second, p, r2)
    ensures r1 == r2
  {
    forall i | 0 <= i < |r1|
      ensures r1[i] == r2[i]
    {
      if p <= i && !Kept(first, second, p, i) {
        var k := HoleIndex(first, second, p, i);
      }
    }
  }

  predicate Distinct(s: seq<int>)
  {
    forall i, j :: 0 <= i < j < |s| ==> s[i] != s[j]
  }

  function SetOf(s: seq<int>): set<int>
  {
    set x | x in s
  }

  /** The rows of a board of size n. */
  function RangeSet(n: nat): (r: set<int>)
    ensures forall x :: x in r <==> 0 <= x < n
    ensures |r| == n
  {
    if n == 0 then {} else RangeSet(n - 1) + {n - 1}
  }

  lemma SetOfConcat(a: seq<int>, b: seq<int>)
    ensures SetOf(a + b) == SetOf(a) + SetOf(b)
  {
  }

  lemma {:induction false} DistinctCard(s: seq<int>)
    requires Distinct(s)
    ensures |SetOf(s)| == |s|
  {
    if s != [] {
      var init, last := s[..|s| - 1], s[|s| - 1];
      assert s == init + [last];
      DistinctCard(init);
      SetOfConcat(init, [last]);
      assert SetOf([last]) == {last};
      assert last !in SetOf(init);
    } else {
      assert SetOf(s) == {};
    }
  }

  lemma DistinctOfPermutation(s: seq<int>, n: nat)
    requires NQueen.IsPermutation(s, n)
    ensures Distinct(s)
  {
  }

  /** A board holds every row: n distinct rows in [0, n) are all of them. */
  lemma PermutationOnto(s: seq<int>, n: nat)
    requires NQueen.IsPermutation(s, n)
    ensures SetOf(s) == RangeSet(n)
  {
    var values, rows := SetOf(s), RangeSet(n);
    DistinctCard(s);
    assert values <= rows;
    assert rows * values == values;
    assert |rows - values| == 0;
    assert rows - values == {};
  }

  /** The leftovers come from values[..k] and are not in seen. */
  lemma {:induction false} LeftoversFrom(values: seq<int>, seen: seq<int>, k: nat)
    requires k <= |values|
    ensures forall x :: x in Leftovers(values, seen, k) ==> x in values[..k] && x !in seen
  {
    if k > 0 {
      LeftoversFrom(values, seen, k - 1);
      assert values[..k] == values[..k - 1] + [values[k - 1]];
    }
  }

  /** Without repetitions in values, none in the leftovers. */
  lemma {:induction false} LeftoversDistinct(values: seq<int>, seen: seq<int>, k: nat)
    requires k <= |values| && Distinct(values)
    ensures Distinct(Leftovers(values, seen, k))
  {
    if k > 0 {
      LeftoversDistinct(values, seen, k - 1);
      LeftoversFrom(values, seen, k - 1);
      var prev, v := Leftovers(values, seen, k - 1), values[k - 1];
      if v !in seen {
        assert v !in values[..k - 1];
        assert v !in prev;
        var l := prev + [v];
        forall i, j | 0 <= i < j < |l|
          ensures l[i] != l[j]
        {
          if j == |prev| {
            assert l[i] in prev;
          }
        }
      }
    }
  }

  /** The leftovers are as many as the values of values[..k] outside seen. */
  lemma {:induction false} LeftoversCount(values: seq<int>, seen: seq<int>, k: nat)
    requires k <= |values| && Distinct(values)
    ensures |Leftovers(values, seen, k)| == |SetOf(values[..k]) - SetOf(seen)|
  {
    if k == 0 {
      assert SetOf(values[..0]) == {};
    } else {
      LeftoversCount(values, seen, k - 1);
      var v := values[k - 1];
      LastIsNew(values, k);
      SetOfSnoc(values[..k - 1], v);
      SliceSnoc(values, 0, k);
      assert values[0..k] == values[..k] && values[0..k - 1] == values[..k - 1];
      assert SetOf(values[..k]) == SetOf(values[..k - 1]) + {v};
      assert v in SetOf(seen) <==> v in seen;
      DifferenceStep(SetOf(values[..k - 1]), SetOf(seen), v);
    }
  }

  /** In a repetition-free sequence, the k-th value is not among the
      earlier ones. */
  lemma LastIsNew(values: seq<int>, k: nat)
    requires 0 < k <= |values| && Distinct(values)
    ensures values[k - 1] !in SetOf(values[..k - 1])
  {
  }

  lemma SetOfSnoc(s: seq<int>, v: int)
    ensures SetOf(s + [v]) == SetOf(s) + {v}
  {
  }

  /** Adding a new value to a set adds one to its difference with another
      set exactly when the other set lacks it. */
  lemma DifferenceStep(a: set<int>, b: set<int>, v: int)
    requires v !in a
    ensures |(a + {v}) - b| == |a - b| + (if v in b then 0 else 1)
  {
    if v in b {
      assert (a + {v}) - b == a - b;
    } else {
      assert (a + {v}) - b == (a - b) + {v};
    }
  }

  /** Adding a new value to a set adds one to its intersection with another
      set exactly when the other set holds it. */
  lemma IntersectionStep(a: set<int>, b: set<int>, v: int)
    requires v !in a
    ensures |b * (a + {v})| == |b * a| + (if v in b then 1 else 0)
  {
    if v in b {
      assert b * (a + {v}) == b * a + {v};
    } else {
      assert b * (a + {v}) == b * a;
    }
  }

  /** With a repetition-free second parent, a value at or past the point
      was seen exactly when the first parent's prefix holds it. */
  lemma SeenPrefix(first: seq<int>, second: seq<int>, p: nat, i: nat)
    requires p <= |first| && p <= i < |second| && second[i] !in second[p..i]
    ensures !Kept(first, second, p, i) <==> second[i] in first[..p]
  {
  }

  /** The value of second at i is new within second[p..]. */
  predicate FreshAt(second: seq<int>, p: nat, i: nat)
    requires p <= i < |second|
  {
    second[i] !in second[p..i]
  }

  predicate FreshFrom(second: seq<int>, p: nat)
  {
    forall i :: p <= i < |second| ==> FreshAt(second, p, i)
  }

  lemma DistinctFresh(second: seq<int>, p: nat)
    requires Distinct(second)
    ensures FreshFrom(second, p)
  {
  }

  /** The holes in [p, i) are as many as the prefix values the second
      parent holds in [p, i). */
  lemma {:induction false} HolesCount(first: seq<int>, second: seq<int>, p: nat, i: nat)
    requires p <= |first| && p <= i <= |second| && FreshFrom(second, p)
    ensures |Holes(first, second, p, i)| == |SetOf(first[..p]) * SetOf(second[p..i])|
    decreases i
  {
    if i == p {
      assert SetOf(second[p..i]) == {};
    } else {
      HolesCount(first, second, p, i - 1);
      assert FreshAt(second, p, i - 1);
      SeenPrefix(first, second, p, i - 1);
      var prefix, before, v := SetOf(first[..p]), SetOf(second[p..i - 1]), second[i - 1];
      assert v !in second[p..i - 1];
      assert v !in before;
      SliceSnoc(second, p, i);
      SetOfSnoc(second[p..i - 1], v);
      assert SetOf(second[p..i]) == before + {v};
      assert v in prefix <==> v in first[..p];
      IntersectionStep(before, prefix, v);
      HolesStep(first, second, p, i);
      var step := if v in prefix then 1 else 0;
      assert |Holes(first, second, p, i)| == |prefix * before| + step;
      assert |prefix * SetOf(second[p..i])| == |prefix * before| + step;
    }
  }

  lemma HolesStep(first: seq<int>, second: seq<int>, p: nat, i: nat)
    requires p <= |first| && p < i <= |second|
    ensures |Holes(first, second, p, i)| == |Holes(first, second, p, i - 1)| + (if Kept(first, second, p, i - 1) then 0 else 1)
  {
  }

  lemma SliceSnoc(s: seq<int>, a: nat, b: nat)
    requires a < b <= |s|
    ensures s[a..b] == s[a..b - 1] + [s[b - 1]]
  {
  }

  /** The two halves of a repetition-free sequence hold disjoint values. */
  lemma SplitSets(s: seq<int>, p: nat)
    requires p <= |s| && Distinct(s)
    ensures SetOf(s) == SetOf(s[..p]) + SetOf(s[p..])
    ensures SetOf(s[..p]) * SetOf(s[p..]) == {}
  {
    assert s == s[..p] + s[p..];
    SetOfConcat(s[..p], s[p..]);
    forall x | x in SetOf(s[..p]) && x in SetOf(s[p..])
      ensures false
    {
    }
  }

  /** The counting step: a set of as many values as the second parent's
      first half, drawn from both halves, misses as many values of the
      first half as it takes from the second. */
  lemma Counting(prefix: set<int>, s1: set<int>, s2: set<int>)
    requires prefix <= s1 + s2 && s1 * s2 == {} && |prefix| == |s1|
    ensures |prefix * s2| == |s1 - prefix|
  {
    assert prefix == prefix * s1 + prefix * s2;
    assert (prefix * s1) * (prefix * s2) == {};
    assert s1 == (s1 - prefix) + s1 * prefix;
    assert (s1 - prefix) * (s1 * prefix) == {};
    assert s1 * prefix == prefix * s1;
  }

  /** The holes are as many as the prefix values in the second parent's
      second half. */
  lemma HolesAsSet(first: seq<int>, second: seq<int>, p: nat)
    requires p <= |first| && p <= |second| && Distinct(second)
    ensures |Holes(first, second, p, |second|)| == |SetOf(first[..p]) * SetOf(second[p..])|
  {
    DistinctFresh(second, p);
    HolesCount(first, second, p, |second|);
    assert second[p..|second|] == second[p..];
  }

  /** The unassigned values are as many as the values of the second
      parent's first half missing from the prefix. */
  lemma UnassignedAsSet(first: seq<int>, second: seq<int>, p: nat)
    requires p <= |first| && p <= |second| && Distinct(second)
    ensures |Unassigned(first, second, p)| == |SetOf(second[..p]) - SetOf(first[..p])|
  {
    var n := |second|;
    var prefix, s1, s2 := SetOf(first[..p]), SetOf(second[..p]), SetOf(second[p..]);
    var seen := Seen(first, second, p, n);
    LeftoversCount(second, seen, n);
    assert second[..n] == second;
    assert second[p..n] == second[p..];
    SetOfConcat(first[..p], second[p..]);
    SplitSets(second, p);
    assert SetOf(second) - SetOf(seen) == s1 - prefix;
  }

  /** For two boards the prefix values lie in the second parent. */
  lemma PrefixWithinSecond(first: seq<int>, second: seq<int>, n: nat, p: nat)
    requires NQueen.IsPermutation(first, n) && NQueen.IsPermutation(second, n) && p <= n
    ensures SetOf(first[..p]) <= SetOf(second[..p]) + SetOf(second[p..])
  {
    PermutationOnto(first, n);
    PermutationOnto(second, n);
    assert second == second[..p] + second[p..];
    SetOfConcat(second[..p], second[p..]);
    assert SetOf(first[..p]) <= SetOf(first);
  }

  lemma DistinctPrefix(s: seq<int>, p: nat)
    requires p <= |s| && Distinct(s)
    ensures Distinct(s[..p]) && |SetOf(s[..p])| == p
  {
    DistinctCard(s[..p]);
  }

  /** For two boards the fallback never fires: the holes and the unassigned
      values are equally many. */
  lemma PermutationsNeverMismatch(first: seq<int>, second: seq<int>, n: nat, p: nat)
    requires NQueen.IsPermutation(first, n) && NQueen.IsPermutation(second, n) && p <= n
    ensures !Mismatch(first, second, p)
  {
    DistinctOfPermutation(first, n);
    DistinctOfPermutation(second, n);
    HolesAsSet(first, second, p);
    UnassignedAsSet(first, second, p);
    PrefixWithinSecond(first, second, n, p);
    SplitSets(second, p);
    DistinctPrefix(first, p);
    DistinctPrefix(second, p);
    Counting(SetOf(first[..p]), SetOf(second[..p]), SetOf(second[p..]));
  }

  /** Where the value at position i of an offspring comes from: the first
      parent's prefix, a kept second-parent value (outside the prefix
      values), or an unassigned value (outside everything assigned). */
  ghost predicate Origin(first: seq<int>, second: seq<int>, p: nat, r: seq<int>, i: nat)
    requires p <= |first| == |second| == |r| && i < |r|
  {
    if i < p then r[i] == first[i]
    else if Kept(first, second, p, i) then r[i] == second[i] && r[i] !in first[..p] && r[i] in second[p..]
    else r[i] in Unassigned(first, second, p) && r[i] !in Seen(first, second, p, |first|)
  }

  lemma ClassifyPosition(first: seq<int>, second: seq<int>, n: nat, p: nat, r: seq<int>, i: nat)
    requires NQueen.IsPermutation(first, n) && NQueen.IsPermutation(second, n) && p <= n && i < n
    requires IsOrderOffspring(first, second, p, r)
    ensures 0 <= r[i] < n && Origin(first, second, p, r, i)
  {
    if i >= p {
      if Kept(first, second, p, i) {
        assert second[p..][i - p] == second[i];
      } else {
        var seen := Seen(first, second, p, n);
        var unassigned := Unassigned(first, second, p);
        assert unassigned == Leftovers(second, seen, n);
        var k := HoleIndex(first, second, p, i);
        assert r[i] == unassigned[k];
        assert r[i] in unassigned;
        LeftoversFrom(second, seen, n);
        assert second[..n] == second;
        assert r[i] in second;
        var j :| 0 <= j < n && second[j] == r[i];
      }
    }
  }

  /** Two positions of an offspring of two boards hold different rows. */
  lemma PairDistinct(first: seq<int>, second: seq<int>, n: nat, p: nat, r: seq<int>, i: nat, j: nat)
    requires NQueen.IsPermutation(first, n) && NQueen.IsPermutation(second, n) && p <= n
    requires IsOrderOffspring(first, second, p, r)
    requires i < j < n
    ensures r[i] != r[j]
  {
    ClassifyPosition(first, second, n, p, r, i);
    ClassifyPosition(first, second, n, p, r, j);
    if j < p {
      assert r[i] == first[i] && r[j] == first[j];
    } else if i < p {
      PrefixAgainstLater(first, second, p, r, i, j);
    } else if Kept(first, second, p, i) && Kept(first, second, p, j) {
      assert r[i] == second[i] && r[j] == second[j];
    } else if Kept(first, second, p, i) || Kept(first, second, p, j) {
      KeptAgainstHole(first, second, p, r, i, j);
    } else {
      DistinctOfPermutation(second, n);
      HolesHoldDistinctRows(first, second, p, r, i, j);
    }
  }

  /** A prefix row differs from every later row. */
  lemma PrefixAgainstLater(first: seq<int>, second: seq<int>, p: nat, r: seq<int>, i: nat, j: nat)
    requires p <= |first| == |second| == |r| && i < p <= j < |r|
    requires Origin(first, second, p, r, i) && Origin(first, second, p, r, j)
    ensures r[i] != r[j]
  {
    assert r[i] in first[..p] by {
      assert first[..p][i] == first[i];
    }
    assert r[i] in Seen(first, second, p, |first|);
  }

  /** A kept row differs from every unassigned row. */
  lemma KeptAgainstHole(first: seq<int>, second: seq<int>, p: nat, r: seq<int>, i: nat, j: nat)
    requires p <= |first| == |second| == |r| && p <= i < |r| && p <= j < |r|
    requires Kept(first, second, p, i) != Kept(first, second, p, j)
    requires Origin(first, second, p, r, i) && Origin(first, second, p, r, j)
    ensures r[i] != r[j]
  {
    var seen := Seen(first, second, p, |first|);
    if Kept(first, second, p, i) {
      assert r[i] in seen;
    } else {
      assert r[j] in seen;
    }
  }

  /** Two holes receive different rows. */
  lemma HolesHoldDistinctRows(first: seq<int>, second: seq<int>, p: nat, r: seq<int>, i: nat, j: nat)
    requires p <= |first| == |second| && p <= i < j < |first| && Distinct(second)
    requires IsOrderOffspring(first, second, p, r)
    requires !Kept(first, second, p, i) && !Kept(first, second, p, j)
    ensures r[i] != r[j]
  {
    var n := |first|;
    LeftoversDistinct(second, Seen(first, second, p, n), n);
    var unassigned := Unassigned(first, second, p);
    var ki := HoleIndex(first, second, p, i);
    var kj := HoleIndex(first, second, p, j);
    assert r[i] == unassigned[ki] && r[j] == unassigned[kj];
  }

  /** Crossing two boards gives a board. */
  lemma OrderOffspringPermutation(first: seq<int>, second: seq<int>, n: nat, p: nat, r: seq<int>)
    requires NQueen.IsPermutation(first, n) && NQueen.IsPermutation(second, n) && p <= n
    requires IsOrderOffspring(first, second, p, r)
    ensures NQueen.IsPermutation(r, n)
  {
    forall i | 0 <= i < n
      ensures 0 <= r[i] < n
    {
      ClassifyPosition(first, second, n, p, r, i);
    }
    forall i, j | 0 <= i < j < n
      ensures r[i] != r[j]
    {
      PairDistinct(first, second, n, p, r, i, j);
    }
  }

  /** The worked example of the source's documentation, with a .. j read
      as 0 .. 9: a b c d e f g h i j crossed with d g b a i c j e f h at 3
      gives a b c d i g j e f h. */
  lemma DocumentedExample()
    ensures var first, second := [0, 1, 2, 3, 4, 5, 6, 7, 8, 9], [3, 6, 1, 0, 8, 2, 9, 4, 5, 7];
      && !Mismatch(first, second, 3)
      && IsOrderOffspring(first, second, 3, [0, 1, 2, 3, 8, 6, 9, 4, 5, 7])
  {
    var first, second := [0, 1, 2, 3, 4, 5, 6, 7, 8, 9], [3, 6, 1, 0, 8, 2, 9, 4, 5, 7];
    ExampleHoles(first, second);
    ExampleUnassigned(first, second);
    ExampleKept(first, second);
  }

  /** In the example, positions 3 and 5 are the holes; the other
      positions from the point on keep the second parent's row. */
  lemma ExampleKept(first: seq<int>, second: seq<int>)
    requires first == [0, 1, 2, 3, 4, 5, 6, 7, 8, 9] && second == [3, 6, 1, 0, 8, 2, 9, 4, 5, 7]
    ensures forall i :: 3 <= i < 10 ==> (Kept(first, second, 3, i) <==> i != 3 && i != 5)
  {
    assert Distinct(second);
    assert first[..3] == [0, 1, 2];
    DistinctFresh(second, 3);
    forall i | 3 <= i < 10
      ensures Kept(first, second, 3, i) <==> i != 3 && i != 5
    {
      assert FreshAt(second, 3, i);
      SeenPrefix(first, second, 3, i);
    }
  }

  lemma ExampleHoles(first: seq<int>, second: seq<int>)
    requires first == [0, 1, 2, 3, 4, 5, 6, 7, 8, 9] && second == [3, 6, 1, 0, 8, 2, 9, 4, 5, 7]
    ensures Holes(first, second, 3, 10) == [3, 5]
  {
    ExampleKept(first, second);
    assert Holes(first, second, 3, 4) == [3];
    assert Holes(first, second, 3, 5) == [3];
    assert Holes(first, second, 3, 6) == [3, 5];
    assert Holes(first, second, 3, 7) == [3, 5];
    assert Holes(first, second, 3, 8) == [3, 5];
    assert Holes(first, second, 3, 9) == [3, 5];
  }

  lemma ExampleSeen(first: seq<int>, second: seq<int>)
    requires first == [0, 1, 2, 3, 4, 5, 6, 7, 8, 9] && second == [3, 6, 1, 0, 8, 2, 9, 4, 5, 7]
    ensures Seen(first, second, 3, 10) == [0, 1, 2, 0, 8, 2, 9, 4, 5, 7]
  {
    assert first[..3] == [0, 1, 2];
    assert second[3..10] == [0, 8, 2, 9, 4, 5, 7];
  }

  lemma ExampleUnassigned(first: seq<int>, second: seq<int>)
    requires first == [0, 1, 2, 3, 4, 5, 6, 7, 8, 9] && second == [3, 6, 1, 0, 8, 2, 9, 4, 5, 7]
    ensures Unassigned(first, second, 3) == [3, 6]
  {
    ExampleSeen(first, second);
    var seen := [0, 1, 2, 0, 8, 2, 9, 4, 5, 7];
    assert Leftovers(second, seen, 1) == [3];
    assert Leftovers(second, seen, 2) == [3, 6];
    assert Leftovers(second, seen, 3) == [3, 6];
    assert Leftovers(second, seen, 4) == [3, 6];
    assert Leftovers(second, seen, 5) == [3, 6];
    assert Leftovers(second, seen, 6) == [3, 6];
    assert Leftovers(second, seen, 7) == [3, 6];
    assert Leftovers(second, seen, 8) == [3, 6];
    assert Leftovers(second, seen, 9) == [3, 6];
  }
}
