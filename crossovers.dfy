/** The generic vector crossovers of include/util/crossovers.h. Each draws a
    swap coin (below 0.5 the parents trade places) and one or two crossover
    points; these draws are parameters here. Sizes the operators refuse
    give back the first parent unchanged. */
module Crossovers {

  /** The first `p` alleles of `first`, the rest of `second`. */
  function OnePointSplice<T>(first: seq<T>, second: seq<T>, p: nat): (r: seq<T>)
    requires p <= |first| == |second|
    ensures |r| == |first|
    ensures forall i :: 0 <= i < |r| ==> r[i] == if i < p then first[i] else second[i]
  {
    first[..p] + second[p..]
  }

  /** `first` outside [p1, p2), `second` inside. */
  function TwoPointSplice<T>(first: seq<T>, second: seq<T>, p1: nat, p2: nat): (r: seq<T>)
    requires p1 <= p2 <= |first| == |second|
    ensures |r| == |first|
    ensures forall i :: 0 <= i < |r| ==> r[i] == if p1 <= i < p2 then second[i] else first[i]
  {
    first[..p1] + second[p1..p2] + first[p2..]
  }

  /** The parent whose alleles lead: the coin swaps the two below 0.5. */
  function Leading<T>(parent1: seq<T>, parent2: seq<T>, shuffle: real): seq<T>
  {
    if shuffle < 0.5 then parent2 else parent1
  }

  function Trailing<T>(parent1: seq<T>, parent2: seq<T>, shuffle: real): seq<T>
  {
    if shuffle < 0.5 then parent1 else parent2
  }

  predicate OnePointApplies<T>(parent1: seq<T>, parent2: seq<T>)
  {
    |parent1| > 1 && |parent1| == |parent2|
  }

  predicate TwoPointApplies<T>(parent1: seq<T>, parent2: seq<T>)
  {
    |parent1| > 2 && |parent1| == |parent2|
  }

  /** onePointCrossover: the point is drawn from [1, L - 1]. */
  method OnePointCrossover<T(0)>(parent1: seq<T>, parent2: seq<T>, shuffle: real, point: int)
    returns (indiv: seq<T>)
    requires OnePointApplies(parent1, parent2) ==> 1 <= point <= |parent1| - 1
    ensures OnePointApplies(parent1, parent2) ==>
      indiv == OnePointSplice(Leading(parent1, parent2, shuffle), Trailing(parent1, parent2, shuffle), point)
    ensures !OnePointApplies(parent1, parent2) ==> indiv == parent1
  {
    if !OnePointApplies(parent1, parent2) {
      return parent1;
    }
    var first, second := parent1, parent2;
    if shuffle < 0.5 {
      var temp := first;
      first := second;
      second := temp;
    }
    var n := |first|;
    var buffer := new T[n];
    for i := 0 to point
      invariant forall k :: 0 <= k < i ==> buffer[k] == first[k]
    {
      buffer[i] := first[i];
    }
    for i := point to n
      invariant forall k :: 0 <= k < point ==> buffer[k] == first[k]
      invariant forall k :: point <= k < i ==> buffer[k] == second[k]
    {
      buffer[i] := second[i];
    }
    indiv := buffer[..];
    assert indiv == OnePointSplice(first, second, point);
  }

  /** twoPointCrossover: the first point is drawn from [1, L - 2], the second
      from [2, L - 1], and the two are put in order. */
  method TwoPointCrossover<T(0)>(parent1: seq<T>, parent2: seq<T>, shuffle: real, point1: int, point2: int)
    returns (indiv: seq<T>)
    requires TwoPointApplies(parent1, parent2) ==> 1 <= point1 <= |parent1| - 2 && 2 <= point2 <= |parent1| - 1
    ensures TwoPointApplies(parent1, parent2) ==>
      indiv == TwoPointSplice(Leading(parent1, parent2, shuffle), Trailing(parent1, parent2, shuffle),
                              Lower(point1, point2), Upper(point1, point2))
    ensures !TwoPointApplies(parent1, parent2) ==> indiv == parent1
  {
    if !TwoPointApplies(parent1, parent2) {
      return parent1;
    }
    var first, second := parent1, parent2;
    if shuffle < 0.5 {
      var temp := first;
      first := second;
      second := temp;
    }
    var p1, p2 := point1, point2;
    if p1 > p2 {
      var temp := p1;
      p1 := p2;
      p2 := temp;
    }
    var n := |first|;
    var buffer := new T[n];
    for i := 0 to p1
      invariant forall k :: 0 <= k < i ==> buffer[k] == first[k]
    {
      buffer[i] := first[i];
    }
    for i := p1 to p2
      invariant forall k :: 0 <= k < p1 ==> buffer[k] == first[k]
      invariant forall k :: p1 <= k < i ==> buffer[k] == second[k]
    {
      buffer[i] := second[i];
    }
    for i := p2 to n
      invariant forall k :: 0 <= k < p1 ==> buffer[k] == first[k]
      invariant forall k :: p1 <= k < p2 ==> buffer[k] == second[k]
      invariant forall k :: p2 <= k < i ==> buffer[k] == first[k]
    {
      buffer[i] := first[i];
    }
    indiv := buffer[..];
    assert indiv == TwoPointSplice(first, second, p1, p2);
  }

  function Lower(a: int, b: int): int { if a > b then b else a }
  function Upper(a: int, b: int): int { if a > b then a else b }

  /** The one-point offspring opens with the leading parent's first allele
      and closes with the trailing parent's last: a point in [1, L - 1]
      always takes from both. */
  lemma OnePointTakesFromBoth<T>(first: seq<T>, second: seq<T>, p: nat)
    requires 1 <= p <= |first| - 1 && |first| == |second|
    ensures var r := OnePointSplice(first, second, p);
      r[0] == first[0] && r[|r| - 1] == second[|second| - 1]
      && r[..p] == first[..p] && r[p..] == second[p..]
  {
  }

  /** Equal points copy the first parent whole. */
  lemma TwoPointEqualPoints<T>(first: seq<T>, second: seq<T>, p: nat)
    requires p <= |first| == |second|
    ensures TwoPointSplice(first, second, p, p) == first
  {
    var r := TwoPointSplice(first, second, p, p);
    assert forall i :: 0 <= i < |r| ==> r[i] == first[i];
  }

  /** No allele is invented: every position of an offspring (either
      operator, either coin) holds that position's allele in one of the two
      parents. */
  lemma OffspringFromParents<T>(parent1: seq<T>, parent2: seq<T>, shuffle: real, p1: nat, p2: nat)
    requires p1 <= p2 <= |parent1| == |parent2|
    ensures var one := OnePointSplice(Leading(parent1, parent2, shuffle), Trailing(parent1, parent2, shuffle), p1);
      forall i :: 0 <= i < |one| ==> one[i] == parent1[i] || one[i] == parent2[i]
    ensures var two := TwoPointSplice(Leading(parent1, parent2, shuffle), Trailing(parent1, parent2, shuffle), p1, p2);
      forall i :: 0 <= i < |two| ==> two[i] == parent1[i] || two[i] == parent2[i]
  {
  }

  /** A two-point crossover is two one-point splices: the trailing parent
      in from p1, then the leading parent back in from p2. */
  lemma TwoPointIsTwoSplices<T>(first: seq<T>, second: seq<T>, p1: nat, p2: nat)
    requires p1 <= p2 <= |first| == |second|
    ensures TwoPointSplice(first, second, p1, p2) == OnePointSplice(OnePointSplice(first, second, p1), first, p2)
  {
    var a := TwoPointSplice(first, second, p1, p2);
    var b := OnePointSplice(OnePointSplice(first, second, p1), first, p2);
    assert forall i :: 0 <= i < |a| ==> a[i] == b[i];
  }

  /** Ordering the points makes the order of the draws irrelevant. */
  lemma PointOrderIrrelevant<T>(first: seq<T>, second: seq<T>, a: nat, b: nat)
    requires a <= |first| && b <= |first| && |first| == |second|
    ensures TwoPointSplice(first, second, Lower(a, b), Upper(a, b)) == TwoPointSplice(first, second, Lower(b, a), Upper(b, a))
  {
  }
}
