/** The n-queens problem of src/examples/n_queen: an individual holds, for
    each column, the row of its queen (0-based), and a board is a
    permutation of 0 .. N - 1. The fitness is minus the number of
    conflicting pairs; mutation swaps an allele with one at a conflicting
    position. The draws of the allele coin and of rand() are parameters. */
module NQueen {
  import GaEngine
  import opened Wrappers

  /** A board: every column holds a row in [0, n) and no two columns share
      a row. */
  predicate IsPermutation(s: seq<int>, n: nat)
  {
    && |s| == n
    && (forall i :: 0 <= i < n ==> 0 <= s[i] < n)
    && (forall i, j :: 0 <= i < j < n ==> s[i] != s[j])
  }

  /** Column j < i conflicts with column i: the same row, or a diagonal, each
      diagonal guarded by the board edge as the source writes it. */
  predicate Attacks(indiv: seq<int>, n: nat, i: nat, j: nat)
    requires j < i < n <= |indiv|
  {
    var distance := i - j;
    || indiv[j] == indiv[i]
    || (indiv[j] == indiv[i] - distance && indiv[j] >= 0)
    || (indiv[j] == indiv[i] + distance && indiv[j] <= n - 1)
  }

  /** Columns in [lo, i) in conflict with column i. */
  function ConflictsFrom(indiv: seq<int>, n: nat, i: nat, lo: nat): nat
    requires lo <= i < n <= |indiv|
    decreases i - lo
  {
    if lo == i then 0
    else (if Attacks(indiv, n, i, lo) then 1 else 0) + ConflictsFrom(indiv, n, i, lo + 1)
  }

  /** Conflicting pairs j < i among the first m columns. */
  function Conflicts(indiv: seq<int>, n: nat, m: nat): nat
    requires m <= n <= |indiv|
  {
    if m == 0 then 0 else Conflicts(indiv, n, m - 1) + ConflictsFrom(indiv, n, m - 1, 0)
  }

  /** The fitness getFitness computes. */
  function Fitness(indiv: seq<int>, n: nat): real
    requires n <= |indiv|
  {
    -(Conflicts(indiv, n, n) as real)
  }

  /** getFitness: for every column i, look back over j = i - 1 down to 0 and
      subtract 1 per conflict. */
  method GetFitness(indiv: seq<int>, n: nat) returns (fitness: real)
    requires n <= |indiv|
    ensures fitness == Fitness(indiv, n)
  {
    fitness := 0.0;
    for i := 0 to n
      invariant fitness == -(Conflicts(indiv, n, i) as real)
    {
      ghost var before := fitness;
      var j: int := i - 1;
      while j >= 0
        invariant -1 <= j < i
        invariant fitness == before - (ConflictsFrom(indiv, n, i, j + 1) as real)
      {
        if Attacks(indiv, n, i, j) {
          fitness := fitness - 1.0;
        }
        j := j - 1;
      }
    }
  }

  /** k copies of v. */
  function Repeat(v: int, k: nat): (r: seq<int>)
    ensures |r| == k && forall t :: 0 <= t < k ==> r[t] == v
  {
    seq(k, _ => v)
  }

  /** The list getConflictingPositions builds over the first m columns:
      column i once for every earlier column in conflict with it. */
  function ConflictList(indiv: seq<int>, n: nat, m: nat): (l: seq<int>)
    requires m <= n <= |indiv|
    ensures forall k :: 0 <= k < |l| ==> 1 <= l[k] <= m - 1
  {
    if m == 0 then [] else ConflictList(indiv, n, m - 1) + Repeat(m - 1, ConflictsFrom(indiv, n, m - 1, 0))
  }

  method GetConflictingPositions(indiv: seq<int>, n: nat) returns (positions: seq<int>)
    requires n <= |indiv|
    ensures positions == ConflictList(indiv, n, n)
  {
    positions := [];
    for i := 0 to n
      invariant positions == ConflictList(indiv, n, i)
    {
      ghost var before := positions;
      var j: int := i - 1;
      while j >= 0
        invariant -1 <= j < i
        invariant positions == before + Repeat(i, ConflictsFrom(indiv, n, i, j + 1))
      {
        if Attacks(indiv, n, i, j) {
          assert Repeat(i, ConflictsFrom(indiv, n, i, j)) == Repeat(i, ConflictsFrom(indiv, n, i, j + 1)) + [i];
          positions := positions + [i];
        }
        j := j - 1;
      }
    }
  }

  /** The conflicting pairs (j, i), j < i, among the first m columns: the
      count's independent reference. */
  function ConflictPairs(indiv: seq<int>, n: nat, m: nat): set<(nat, nat)>
    requires m <= n <= |indiv|
  {
    set i: nat, j: nat | j < i < m && Attacks(indiv, n, i, j) :: (j, i)
  }

  function ConflictRow(indiv: seq<int>, n: nat, i: nat, lo: nat): set<(nat, nat)>
    requires lo <= i < n <= |indiv|
  {
    set j: nat | lo <= j < i && Attacks(indiv, n, i, j) :: (j, i)
  }

  lemma {:induction false} ConflictRowSize(indiv: seq<int>, n: nat, i: nat, lo: nat)
    requires lo <= i < n <= |indiv|
    ensures |ConflictRow(indiv, n, i, lo)| == ConflictsFrom(indiv, n, i, lo)
    decreases i - lo
  {
    if lo < i {
      ConflictRowSize(indiv, n, i, lo + 1);
      var rest := ConflictRow(indiv, n, i, lo + 1);
      if Attacks(indiv, n, i, lo) {
        assert ConflictRow(indiv, n, i, lo) == rest + {(lo, i)};
        assert (lo, i) !in rest;
      } else {
        assert ConflictRow(indiv, n, i, lo) == rest;
      }
    } else {
      assert ConflictRow(indiv, n, i, lo) == {};
    }
  }

  /** getFitness counts each conflicting pair exactly once. */
  lemma {:induction false} ConflictsCountPairs(indiv: seq<int>, n: nat, m: nat)
    requires m <= n <= |indiv|
    ensures |ConflictPairs(indiv, n, m)| == Conflicts(indiv, n, m)
  {
    if m == 0 {
      assert ConflictPairs(indiv, n, m) == {};
    } else {
      ConflictsCountPairs(indiv, n, m - 1);
      ConflictRowSize(indiv, n, m - 1, 0);
      var earlier := ConflictPairs(indiv, n, m - 1);
      var row := ConflictRow(indiv, n, m - 1, 0);
      assert ConflictPairs(indiv, n, m) == earlier + row;
      assert earlier * row == {} by {
        forall q | q in row ensures q !in earlier {
        }
      }
    }
  }

  /** At most one conflict per earlier column. */
  lemma {:induction false} ConflictsFromAtMost(indiv: seq<int>, n: nat, i: nat, lo: nat)
    requires lo <= i < n <= |indiv|
    ensures ConflictsFrom(indiv, n, i, lo) <= i - lo
    decreases i - lo
  {
    if lo < i {
      ConflictsFromAtMost(indiv, n, i, lo + 1);
    }
  }

  /** 0 <= conflicts <= m (m - 1) / 2, so -N (N - 1) / 2 <= fitness <= 0. */
  lemma {:induction false} ConflictsBound(indiv: seq<int>, n: nat, m: nat)
    requires m <= n <= |indiv|
    ensures 2 * Conflicts(indiv, n, m) <= m * (m - 1)
  {
    if m > 0 {
      ConflictsBound(indiv, n, m - 1);
      ConflictsFromAtMost(indiv, n, m - 1, 0);
      assert m * (m - 1) == (m - 1) * (m - 2) + 2 * (m - 1);
    }
  }

  lemma FitnessBounds(indiv: seq<int>, n: nat)
    requires n <= |indiv|
    ensures -((n * (n - 1)) as real) / 2.0 <= Fitness(indiv, n) <= 0.0
  {
    var pairs := n * (n - 1);
    var c := Conflicts(indiv, n, n);
    ConflictsBound(indiv, n, n);
    assert 2 * c <= pairs;
    assert 2.0 * (c as real) <= pairs as real;
  }

  predicate ConflictFree(indiv: seq<int>, n: nat)
    requires n <= |indiv|
  {
    forall i, j :: 0 <= j < i < n ==> !Attacks(indiv, n, i, j)
  }

  lemma {:induction false} ConflictsFromZero(indiv: seq<int>, n: nat, i: nat, lo: nat)
    requires lo <= i < n <= |indiv|
    ensures ConflictsFrom(indiv, n, i, lo) == 0 <==> forall j :: lo <= j < i ==> !Attacks(indiv, n, i, j)
    decreases i - lo
  {
    if lo < i {
      ConflictsFromZero(indiv, n, i, lo + 1);
    }
  }

  lemma {:induction false} ConflictsZero(indiv: seq<int>, n: nat, m: nat)
    requires m <= n <= |indiv|
    ensures Conflicts(indiv, n, m) == 0 <==> forall i, j :: 0 <= j < i < m ==> !Attacks(indiv, n, i, j)
  {
    if m > 0 {
      ConflictsZero(indiv, n, m - 1);
      ConflictsFromZero(indiv, n, m - 1, 0);
    }
  }

  /** The fitness is 0 exactly on a conflict-free board, which is what the
      n-queens shouldStop (best fitness >= 0) waits for. */
  lemma StopIffSolved(indiv: seq<int>, n: nat, generations: int, maxGenerations: int)
    requires n <= |indiv|
    ensures Fitness(indiv, n) == 0.0 <==> ConflictFree(indiv, n)
    ensures GaEngine.StopRule(GaEngine.NonNegativeBest, generations, Fitness(indiv, n), maxGenerations)
        <==> ConflictFree(indiv, n)
  {
    ConflictsZero(indiv, n, n);
  }

  /** On a board the edge guards never matter: a conflict is a shared row or
      a shared diagonal. */
  lemma AttacksOnBoard(indiv: seq<int>, n: nat, i: nat, j: nat)
    requires j < i < n <= |indiv|
    requires 0 <= indiv[i] < n && 0 <= indiv[j] < n
    ensures Attacks(indiv, n, i, j) <==> indiv[i] == indiv[j] || indiv[i] - indiv[j] == i - j || indiv[j] - indiv[i] == i - j
  {
  }

  /** The four-queens board {2, 0, 3, 1} is a conflict-free permutation. */
  lemma FourQueensSolution()
    ensures IsPermutation([2, 0, 3, 1], 4) && ConflictFree([2, 0, 3, 1], 4)
    ensures Fitness([2, 0, 3, 1], 4) == 0.0
  {
    var b := [2, 0, 3, 1];
    assert !Attacks(b, 4, 1, 0) && !Attacks(b, 4, 2, 0) && !Attacks(b, 4, 2, 1);
    assert !Attacks(b, 4, 3, 0) && !Attacks(b, 4, 3, 1) && !Attacks(b, 4, 3, 2);
    ConflictsZero(b, 4, 4);
  }

  /** The conflict list has one entry per conflicting pair. */
  lemma {:induction false} ConflictListLength(indiv: seq<int>, n: nat, m: nat)
    requires m <= n <= |indiv|
    ensures |ConflictList(indiv, n, m)| == Conflicts(indiv, n, m)
  {
    if m > 0 {
      ConflictListLength(indiv, n, m - 1);
    }
  }

  predicate Ascending(s: seq<int>)
  {
    forall k1, k2 :: 0 <= k1 <= k2 < |s| ==> s[k1] <= s[k2]
  }

  /** Its entries appear in non-decreasing order. */
  lemma {:induction false} ConflictListOrdered(indiv: seq<int>, n: nat, m: nat)
    requires m <= n <= |indiv|
    ensures Ascending(ConflictList(indiv, n, m))
  {
    if m > 0 {
      ConflictListOrdered(indiv, n, m - 1);
      var prev := ConflictList(indiv, n, m - 1);
      var rep := Repeat(m - 1, ConflictsFrom(indiv, n, m - 1, 0));
      var l := ConflictList(indiv, n, m);
      assert l == prev + rep;
      forall k1, k2 | 0 <= k1 <= k2 < |l|
        ensures l[k1] <= l[k2]
      {
        if k2 < |prev| {
          assert l[k1] == prev[k1] && l[k2] == prev[k2];
        } else if k1 < |prev| {
          assert l[k1] == prev[k1] <= m - 2 && l[k2] == rep[k2 - |prev|] == m - 1;
        } else {
          assert l[k1] == rep[k1 - |prev|] == m - 1 == rep[k2 - |prev|] == l[k2];
        }
      }
    }
  }

  /** Column v appears once for every earlier column in conflict with it. */
  lemma {:induction false} ConflictListCounts(indiv: seq<int>, n: nat, m: nat, v: int)
    requires m <= n <= |indiv|
    ensures multiset(ConflictList(indiv, n, m))[v] == if 0 <= v < m then ConflictsFrom(indiv, n, v, 0) else 0
  {
    if m > 0 {
      ConflictListCounts(indiv, n, m - 1, v);
      RepeatCount(m - 1, ConflictsFrom(indiv, n, m - 1, 0), v);
    }
  }

  lemma {:induction false} RepeatCount(u: int, k: nat, v: int)
    ensures multiset(Repeat(u, k))[v] == if u == v then k else 0
  {
    if k > 0 {
      RepeatCount(u, k - 1, v);
      assert Repeat(u, k) == Repeat(u, k - 1) + [u];
    }
  }

  /** Swap the alleles at a and b. */
  function Swap(s: seq<int>, a: nat, b: nat): (r: seq<int>)
    requires a < |s| && b < |s|
    ensures |r| == |s|
    ensures r[a] == s[b] && r[b] == s[a]
    ensures forall i :: 0 <= i < |s| && i != a && i != b ==> r[i] == s[i]
  {
    s[a := s[b]][b := s[a]]
  }

  lemma SwapMultiset(s: seq<int>, a: nat, b: nat)
    requires a < |s| && b < |s|
    ensures multiset(Swap(s, a, b)) == multiset(s)
  {
  }

  /** Drop entry j. */
  function Remove(c: seq<int>, j: nat): (r: seq<int>)
    requires j < |c|
    ensures |r| == |c| - 1
    ensures forall k :: 0 <= k < |r| ==> r[k] == if k < j then c[k] else c[k + 1]
  {
    c[..j] + c[j + 1..]
  }

  predicate PositionsIn(c: seq<int>, n: nat)
  {
    forall k :: 0 <= k < |c| ==> 0 <= c[k] < n
  }

  /** The swaps mutate makes from column i on: where the allele coin falls
      below the probability and conflicting positions remain, swap with the
      position chosen by pick % remaining and drop that entry. */
  function SwapMutation(s: seq<int>, n: nat, conflicts: seq<int>, probability: real,
                        draws: seq<real>, picks: seq<nat>, i: nat): seq<int>
    requires i <= n <= |s| && n <= |draws| && n <= |picks| && PositionsIn(conflicts, n)
    decreases n - i
  {
    if i == n then s
    else if draws[i] < probability && |conflicts| > 0 then
      var j := picks[i] % |conflicts|;
      SwapMutation(Swap(s, i, conflicts[j] as nat), n, Remove(conflicts, j), probability, draws, picks, i + 1)
    else SwapMutation(s, n, conflicts, probability, draws, picks, i + 1)
  }

  /** One column of the fold. */
  lemma SwapMutationStep(s: seq<int>, n: nat, conflicts: seq<int>, probability: real,
                         draws: seq<real>, picks: seq<nat>, i: nat)
    requires i < n <= |s| && n <= |draws| && n <= |picks| && PositionsIn(conflicts, n)
    ensures draws[i] < probability && |conflicts| > 0 ==>
      var j := picks[i] % |conflicts|;
      SwapMutation(s, n, conflicts, probability, draws, picks, i)
        == SwapMutation(Swap(s, i, conflicts[j] as nat), n, Remove(conflicts, j), probability, draws, picks, i + 1)
    ensures !(draws[i] < probability && |conflicts| > 0) ==>
      SwapMutation(s, n, conflicts, probability, draws, picks, i)
        == SwapMutation(s, n, conflicts, probability, draws, picks, i + 1)
  {
  }

  /** Mutation only moves alleles around. */
  lemma {:induction false} SwapMutationMultiset(s: seq<int>, n: nat, conflicts: seq<int>, probability: real,
                                                draws: seq<real>, picks: seq<nat>, i: nat)
    requires i <= n <= |s| && n <= |draws| && n <= |picks| && PositionsIn(conflicts, n)
    ensures var r := SwapMutation(s, n, conflicts, probability, draws, picks, i);
      |r| == |s| && multiset(r) == multiset(s)
    decreases n - i
  {
    if i < n {
      SwapMutationStep(s, n, conflicts, probability, draws, picks, i);
      if draws[i] < probability && |conflicts| > 0 {
        var j := picks[i] % |conflicts|;
        var next := Swap(s, i, conflicts[j] as nat);
        SwapMultiset(s, i, conflicts[j] as nat);
        SwapMutationMultiset(next, n, Remove(conflicts, j), probability, draws, picks, i + 1);
      } else {
        SwapMutationMultiset(s, n, conflicts, probability, draws, picks, i + 1);
      }
    }
  }

  lemma SwapPermutation(s: seq<int>, n: nat, a: nat, b: nat)
    requires IsPermutation(s, n) && a < n && b < n
    ensures IsPermutation(Swap(s, a, b), n)
  {
    var r := Swap(s, a, b);
    forall i, j | 0 <= i < j < n
      ensures r[i] != r[j]
    {
      var si := if i == b then a else if i == a then b else i;
      var sj := if j == b then a else if j == a then b else j;
      assert r[i] == s[si] && r[j] == s[sj] && si != sj;
    }
  }

  /** Mutating a board yields a board. */
  lemma {:induction false} SwapMutationPermutation(s: seq<int>, n: nat, conflicts: seq<int>, probability: real,
                                                   draws: seq<real>, picks: seq<nat>, i: nat)
    requires i <= n && IsPermutation(s, n) && n <= |draws| && n <= |picks| && PositionsIn(conflicts, n)
    ensures IsPermutation(SwapMutation(s, n, conflicts, probability, draws, picks, i), n)
    decreases n - i
  {
    if i < n {
      if draws[i] < probability && |conflicts| > 0 {
        var j := picks[i] % |conflicts|;
        SwapPermutation(s, n, i, conflicts[j] as nat);
        SwapMutationPermutation(Swap(s, i, conflicts[j] as nat), n, Remove(conflicts, j), probability, draws, picks, i + 1);
      } else {
        SwapMutationPermutation(s, n, conflicts, probability, draws, picks, i + 1);
      }
    }
  }

  /** With no conflicting position the individual is left as it is. */
  lemma {:induction false} SwapMutationNoConflicts(s: seq<int>, n: nat, probability: real,
                                                   draws: seq<real>, picks: seq<nat>, i: nat)
    requires i <= n <= |s| && n <= |draws| && n <= |picks|
    ensures SwapMutation(s, n, [], probability, draws, picks, i) == s
    decreases n - i
  {
    if i < n {
      SwapMutationNoConflicts(s, n, probability, draws, picks, i + 1);
    }
  }

  /** Swap two alleles in place. */
  method SwapAlleles(indiv: array<int>, a: nat, b: nat)
    requires a < indiv.Length && b < indiv.Length
    modifies indiv
    ensures indiv[..] == Swap(old(indiv[..]), a, b)
  {
    var tempValue := indiv[a];
    indiv[a] := indiv[b];
    indiv[b] := tempValue;
  }

  /** mutate: the conflict list is computed once; each column whose coin
      falls below the probability is swapped with a conflicting position
      drawn by pick % remaining, and that entry is dropped. swaps counts the
      swaps made. */
  method Mutate(indiv: array<int>, n: nat, alleleMutationProbability: real, draws: seq<real>, picks: seq<nat>)
    returns (ghost swaps: nat)
    requires n <= indiv.Length && n <= |draws| && n <= |picks|
    modifies indiv
    ensures indiv[..] == SwapMutation(old(indiv[..]), n, ConflictList(old(indiv[..]), n, n),
                                      alleleMutationProbability, draws, picks, 0)
    ensures multiset(indiv[..]) == multiset(old(indiv[..]))
    ensures swaps <= Conflicts(old(indiv[..]), n, n)
    ensures Conflicts(old(indiv[..]), n, n) == 0 ==> indiv[..] == old(indiv[..])
  {
    ghost var original := indiv[..];
    var conflictingPositions := GetConflictingPositions(indiv[..], n);
    ConflictListLength(original, n, n);
    ghost var initial := conflictingPositions;
    ghost var target := SwapMutation(original, n, initial, alleleMutationProbability, draws, picks, 0);
    swaps := 0;
    for i := 0 to n
      invariant PositionsIn(conflictingPositions, n)
      invariant swaps + |conflictingPositions| == |initial|
      invariant SwapMutation(indiv[..], n, conflictingPositions, alleleMutationProbability, draws, picks, i) == target
    {
      var swapped;
      conflictingPositions, swapped := MutateAllele(indiv, n, conflictingPositions, alleleMutationProbability, draws, picks, i);
      if swapped {
        swaps := swaps + 1;
      }
    }
    SwapMutationMultiset(original, n, initial, alleleMutationProbability, draws, picks, 0);
    if initial == [] {
      SwapMutationNoConflicts(original, n, alleleMutationProbability, draws, picks, 0);
    }
  }

  /** One column of mutate: when its coin falls below the probability and a
      conflicting position remains, swap with the one chosen by
      pick % remaining and drop that entry. */
  method MutateAllele(indiv: array<int>, n: nat, conflictingPositions: seq<int>, alleleMutationProbability: real,
                      draws: seq<real>, picks: seq<nat>, i: nat)
    returns (remaining: seq<int>, swapped: bool)
    requires i < n <= indiv.Length && n <= |draws| && n <= |picks| && PositionsIn(conflictingPositions, n)
    modifies indiv
    ensures PositionsIn(remaining, n)
    ensures |remaining| == if swapped then |conflictingPositions| - 1 else |conflictingPositions|
    ensures SwapMutation(indiv[..], n, remaining, alleleMutationProbability, draws, picks, i + 1)
         == SwapMutation(old(indiv[..]), n, conflictingPositions, alleleMutationProbability, draws, picks, i)
  {
    SwapMutationStep(indiv[..], n, conflictingPositions, alleleMutationProbability, draws, picks, i);
    remaining, swapped := conflictingPositions, false;
    if draws[i] < alleleMutationProbability {
      var totalConflicts := |conflictingPositions|;
      if totalConflicts > 0 {
        var jthRandom := picks[i] % totalConflicts;
        var conflictPosition := conflictingPositions[jthRandom];
        SwapAlleles(indiv, i, conflictPosition as nat);
        remaining, swapped := Remove(conflictingPositions, jthRandom), true;
      }
    }
  }

  /** A mutated board is still a board. */
  lemma MutationKeepsBoard(s: seq<int>, n: nat, probability: real, draws: seq<real>, picks: seq<nat>)
    requires IsPermutation(s, n) && n <= |draws| && n <= |picks|
    ensures IsPermutation(SwapMutation(s, n, ConflictList(s, n, n), probability, draws, picks, 0), n)
  {
    SwapMutationPermutation(s, n, ConflictList(s, n, n), probability, draws, picks, 0);
  }

  /** The first n values of rand() already land on n different rows. */
  predicate DistinctDraws(draws: seq<nat>, n: nat)
  {
    n <= |draws| && forall a, b :: 0 <= a < b < n ==> draws[a] % n != draws[b] % n
  }

  /** getRandomIndiv with the values rand() returns as a finite supply: for
      each column, draw rand() % N until a row not yet taken turns up. The
      result is None when the supply runs out first. */
  method GetRandomIndiv(n: nat, draws: seq<nat>) returns (r: Option<seq<int>>)
    ensures r.Some? ==> IsPermutation(r.value, n)
    ensures |draws| < n ==> r.None?
    ensures DistinctDraws(draws, n) ==> r == Some(seq(n, k requires 0 <= k < n => draws[k] % n))
  {
    var indiv: seq<int> := [];
    var taken: set<int> := {};
    var d := 0;
    for i := 0 to n
      invariant |indiv| == i && i <= d <= |draws|
      invariant forall k :: 0 <= k < i ==> 0 <= indiv[k] < n
      invariant forall k1, k2 :: 0 <= k1 < k2 < i ==> indiv[k1] != indiv[k2]
      invariant forall x :: x in taken <==> x in indiv
      invariant DistinctDraws(draws, n) ==> d == i && forall k :: 0 <= k < i ==> indiv[k] == draws[k] % n
    {
      if d == |draws| {
        return None;
      }
      var position := draws[d] % n;
      if DistinctDraws(draws, n) {
        FreshDraw(draws, n, indiv);
      }
      d := d + 1;
      while position in taken
        invariant i < d <= |draws| && 0 <= position < n
        invariant DistinctDraws(draws, n) ==> d == i + 1 && position == draws[i] % n && position !in taken
        decreases |draws| - d
      {
        if d == |draws| {
          return None;
        }
        position := draws[d] % n;
        d := d + 1;
      }
      ExtendRows(indiv, n, position);
      indiv := indiv + [position];
      taken := taken + {position};
    }
    if DistinctDraws(draws, n) {
      assert indiv == seq(n, k requires 0 <= k < n => draws[k] % n);
    }
    r := Some(indiv);
  }

  /** With distinct draws, the draw for column |rows| lands on a row none
      of the earlier columns took. */
  lemma FreshDraw(draws: seq<nat>, n: nat, rows: seq<int>)
    requires DistinctDraws(draws, n) && |rows| < n
    requires forall k :: 0 <= k < |rows| ==> rows[k] == draws[k] % n
    ensures draws[|rows|] % n !in rows
  {
    forall k | 0 <= k < |rows|
      ensures rows[k] != draws[|rows|] % n
    {
      assert rows[k] == draws[k] % n;
    }
  }

  /** Appending a new row in range keeps the rows in range and distinct. */
  lemma ExtendRows(rows: seq<int>, n: nat, position: int)
    requires forall k :: 0 <= k < |rows| ==> 0 <= rows[k] < n
    requires forall k1, k2 :: 0 <= k1 < k2 < |rows| ==> rows[k1] != rows[k2]
    requires 0 <= position < n && position !in rows
    ensures var next := rows + [position];
      (forall k :: 0 <= k < |next| ==> 0 <= next[k] < n)
      && (forall k1, k2 :: 0 <= k1 < k2 < |next| ==> next[k1] != next[k2])
  {
  }

  /** nqueen_genetic_algo: N and the range crossover points are drawn from. */
  class NQueenGa {
    var nQueenNum: int
    var crossoverPointMin: int
    var crossoverPointMax: int

    /** N below 4 is refused and the default 100 kept; the crossover point
        range is [1, N - 1] either way. */
    constructor (nQueenNumber: int)
      ensures nQueenNum == if nQueenNumber < 4 then 100 else nQueenNumber
      ensures nQueenNum >= 4
      ensures crossoverPointMin == 1 && crossoverPointMax == nQueenNum - 1
    {
      nQueenNum := 100;
      crossoverPointMin := 1;
      crossoverPointMax := 99;
      if nQueenNumber >= 4 {
        nQueenNum := nQueenNumber;
        crossoverPointMin, crossoverPointMax := 1, nQueenNumber - 1;
      }
    }
  }
}
