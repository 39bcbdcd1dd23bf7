/** The engine of simple_ga<T> (include/ga.h). The population is a sequence
    of slots; the pointer-keyed fitness map becomes the ledger, a sequence
    of fitness values indexed by slot, and the cumulative map the table of
    the same length. The problem-specific hooks are constants of the object:
    the fitness function, and the crossover and mutation operators, each
    given the draws it consumes. Every draw the engine takes from its own
    random engines is a parameter. */
module GaEngine {
  import opened FitnessLedger
  import Selector
  import Elitism

  /** Which shouldStop is in force: the engine's default (a generation
      ceiling) or the n-queens override (a conflict-free best). */
  datatype StopPolicy = GenerationCeiling | NonNegativeBest

  function StopRule(policy: StopPolicy, generations: int, best: real, maxGenerations: int): bool
  {
    match policy
    case GenerationCeiling => generations >= maxGenerations
    case NonNegativeBest => best >= 0.0
  }

  /** Where the individual of a new slot comes from: a copy of the current
      individual in the same slot, or the offspring of two parent slots. */
  datatype Source = Carry | Offspring(parent1: nat, parent2: nat)

  /** The engine's decisions for one slot of the next generation. */
  datatype SlotPlan = SlotPlan(source: Source, mutate: bool)

  /** The draws one slot of the next generation consumes: the crossover coin,
      two roulette draws, the mutation coin, and whatever the operators draw
      themselves (of type R). */
  datatype SlotDraws<R> = SlotDraws(crossover: real, wheel1: real, wheel2: real, mutation: real, crossOp: R, mutateOp: R)

  /** The draws of one generation: one record per slot and the elite slot. */
  datatype GenerationDraws<R> = GenerationDraws(slots: seq<SlotDraws<R>>, eliteSlot: nat)

  /** The six parameters setParameters writes. */
  datatype Settings = Settings(
    populationSize: nat, maxNumOfGenerations: int,
    crossoverProbability: real, mutationProbability: real,
    alleleMutationProbability: real, elitism: bool)

  /** The fitness of every slot, in slot order. */
  function Fitnesses<T>(fitness: T -> Fitness, population: seq<T>): (ledger: seq<real>)
    ensures |ledger| == |population|
    ensures forall i :: 0 <= i < |population| ==> ledger[i] == fitness(population[i])
  {
    seq(|population|, i requires 0 <= i < |population| => fitness(population[i]))
  }

  /** ledger holds the fitness of every slot of population. */
  ghost predicate IsLedgerOf<T>(fitness: T -> Fitness, population: seq<T>, ledger: seq<real>)
  {
    |ledger| == |population| && forall i :: 0 <= i < |population| ==> ledger[i] == fitness(population[i])
  }

  /** k is the slot a scan with `>=` settles on: it holds the maximum and no
      later slot does. */
  predicate IsLastMaxSlot(ledger: seq<real>, k: nat)
  {
    k < |ledger| && IsMaxOf(ledger[k], ledger) && forall j :: k < j < |ledger| ==> ledger[j] < ledger[k]
  }

  /** What an ordered scan of the slots so far has established: the running
      sum, and either nothing seen yet (the initial DBL_MAX and -DBL_MAX) or
      the exact minimum and the maximum at its last slot. */
  ghost predicate ScanState(seen: seq<real>, sum: real, min: real, max: real, slot: nat)
  {
    && sum == Sum(seen)
    && (seen == [] ==> min == DBL_MAX && max == -DBL_MAX)
    && (seen != [] ==> IsMinOf(min, seen) && IsLastMaxSlot(seen, slot) && seen[slot] == max)
  }

  /** The generation's running minimum, maximum and best individual. */
  datatype Extremes<T> = Extremes(min: real, max: real, best: T)

  /** updateCurrentGenMinMaxFitness on values: `<=` moves the minimum and
      `>=` moves the maximum and its individual, so ties move both to the
      later slot. */
  function UpdateCurrentGenMinMaxFitness<T>(e: Extremes<T>, indiv: T, fitness: real): Extremes<T>
  {
    Extremes(if fitness <= e.min then fitness else e.min,
             if fitness >= e.max then fitness else e.max,
             if fitness >= e.max then indiv else e.best)
  }

  /** One slot more: the fold keeps the running sum, the exact minimum, and
      the maximum at the last slot that holds it. */
  lemma ScanStep<T>(seen: seq<real>, sum: real, e: Extremes<T>, slot: nat, indiv: T, f: real)
    requires ScanState(seen, sum, e.min, e.max, slot) && Finite(f)
    ensures var r := UpdateCurrentGenMinMaxFitness(e, indiv, f);
      ScanState(seen + [f], sum + f, r.min, r.max, if f >= e.max then |seen| else slot)
  {
    var after := seen + [f];
    assert after[..|after| - 1] == seen;
  }

  /** Each entry of the trace is at most the next. */
  ghost predicate NonDecreasing(trace: seq<real>)
  {
    forall j :: 0 <= j < |trace| - 1 ==> trace[j] <= trace[j + 1]
  }

  /** The stop rule failed at the checks 0 .. made - 1, whose run-bests the
      trace records. */
  ghost predicate NeverStoppedBefore(policy: StopPolicy, trace: seq<real>, made: nat, maxGenerations: int)
  {
    made <= |trace| && forall j :: 0 <= j < made ==> !StopRule(policy, j, trace[j], maxGenerations)
  }

  /** A generation whose check failed, ending with a run-best no lower. */
  lemma TraceStep(policy: StopPolicy, trace: seq<real>, best: real, made: nat, maxGenerations: int)
    requires |trace| == made + 1
    requires NonDecreasing(trace) && NeverStoppedBefore(policy, trace, made, maxGenerations)
    requires trace[made] <= best && !StopRule(policy, made, trace[made], maxGenerations)
    ensures NonDecreasing(trace + [best]) && NeverStoppedBefore(policy, trace + [best], made + 1, maxGenerations)
  {
  }

  function Min(a: int, b: int): int { if a <= b then a else b }
  function Max(a: int, b: int): int { if a >= b then a else b }

  /** The degenerate branch of resetCumulativeMap: add 1/N once per slot. */
  method EqualShareRunningSums(n: nat) returns (table: seq<real>)
    requires n > 0
    ensures table == PrefixSums(EqualShares(n))
  {
    var shares := EqualShares(n);
    var equalFitness := 1.0 / (n as real);
    var running := 0.0;
    table := [];
    for i := 0 to n
      invariant |table| == i
      invariant running == Sum(shares[..i])
      invariant forall k :: 0 <= k < i ==> table[k] == Sum(shares[..k + 1])
    {
      SumPrefixStep(shares, i);
      assert shares[i] == equalFitness;
      running := running + equalFitness;
      table := table + [running];
    }
  }

  /** The general branch of resetCumulativeMap: add each slot's fitness,
      shifted by the minimum, over the shifted total. */
  method ShiftedShareRunningSums(ledger: seq<real>, min: real, total: real) returns (table: seq<real>)
    requires total != 0.0
    ensures table == PrefixSums(ShiftedShares(ledger, min, total))
  {
    var shares := ShiftedShares(ledger, min, total);
    var running := 0.0;
    table := [];
    for i := 0 to |ledger|
      invariant |table| == i
      invariant running == Sum(shares[..i])
      invariant forall k :: 0 <= k < i ==> table[k] == Sum(shares[..k + 1])
    {
      SumPrefixStep(shares, i);
      var shifted := ledger[i] - min;
      assert shares[i] == shifted / total;
      running := running + shifted / total;
      table := table + [running];
    }
  }

  class SimpleGa<T(0,!new), R> {
    var populationSize: nat
    var maxNumOfGenerations: int
    var crossoverProbability: real
    var mutationProbability: real
    var alleleMutationProbability: real
    var elitism: bool

    const fitnessOf: T -> Fitness
    const crossOverOp: (T, T, R) -> T
    const mutateOp: (T, R) -> T
    const stopPolicy: StopPolicy

    /** Slots allocated by the first initialisation, 0 before it. */
    var capacity: nat
    var population: seq<T>
    var ledger: seq<real>
    var cumulative: seq<real>
    var numOfGenerations: int
    var bestIndividual: T
    var bestFitness: real
    var genBestIndividual: T
    var genBestFitness: real
    var genMinFitness: real
    var avgFitness: real
    var fitnessSum: real
    /** The slot genBestIndividual was taken from. */
    ghost var genBestSlot: nat

    function CurrentSettings(): Settings
      reads this
    {
      Settings(populationSize, maxNumOfGenerations, crossoverProbability,
               mutationProbability, alleleMutationProbability, elitism)
    }

    /** The state after a population has been scored: the ledger holds
        every slot's fitness, and the sum, minimum and maximum are exact. */
    ghost predicate Scored()
      reads this`populationSize, this`population, this`ledger, this`fitnessSum,
            this`genMinFitness, this`genBestFitness, this`genBestIndividual, this`genBestSlot
    {
      && populationSize >= 2
      && |population| == populationSize
      && IsLedgerOf(fitnessOf, population, ledger)
      && fitnessSum == Sum(ledger)
      && IsMinOf(genMinFitness, ledger)
      && IsMaxOf(genBestFitness, ledger)
      && genBestSlot < |population|
      && population[genBestSlot] == genBestIndividual
      && ledger[genBestSlot] == genBestFitness
    }

    /** A scored generation with its run-best, average and wheel. */
    ghost predicate Valid()
      reads this`populationSize, this`population, this`ledger, this`fitnessSum,
            this`genMinFitness, this`genBestFitness, this`genBestIndividual, this`genBestSlot,
            this`bestIndividual, this`bestFitness, this`avgFitness, this`cumulative
    {
      && Scored()
      && fitnessOf(bestIndividual) == bestFitness
      && genBestFitness <= bestFitness
      // the average, stated as the product it satisfies (populationSize >= 2)
      && avgFitness * (populationSize as real) == fitnessSum
      && TableDefined(ledger, genMinFitness, genBestFitness, fitnessSum)
      // the wheel, stated without division (TableOfIsCumulativeTable)
      && IsTableOf(cumulative, ledger, genMinFitness, genBestFitness, fitnessSum)
    }

    constructor (fitness: T -> Fitness, crossOver: (T, T, R) -> T, mutate: (T, R) -> T, policy: StopPolicy)
      ensures fitnessOf == fitness && crossOverOp == crossOver && mutateOp == mutate && stopPolicy == policy
      ensures CurrentSettings() == Settings(100, 1000, 0.8, 0.1, 0.1, true)
      ensures capacity == 0 && numOfGenerations == -1
      ensures bestFitness == genBestFitness == -DBL_MAX && genMinFitness == DBL_MAX
      ensures avgFitness == 0.0 && fitnessSum == 0.0
    {
      populationSize := 100;
      maxNumOfGenerations := 1000;
      crossoverProbability := 0.8;
      mutationProbability := 0.1;
      alleleMutationProbability := 0.1;
      elitism := true;
      fitnessOf := fitness;
      crossOverOp := crossOver;
      mutateOp := mutate;
      stopPolicy := policy;
      capacity := 0;
      population := [];
      ledger := [];
      cumulative := [];
      numOfGenerations := -1;
      bestFitness := -DBL_MAX;
      genBestFitness := -DBL_MAX;
      genMinFitness := DBL_MAX;
      avgFitness := 0.0;
      fitnessSum := 0.0;
      genBestSlot := 0;
    }

    /** A population size below 2 is refused and the previous one kept; the
        other five parameters are stored as given. */
    method SetParameters(size: int, maxGenerations: int, crossoverProb: real,
                         mutationProb: real, alleleMutationProb: real, elitismOn: bool)
      modifies this`populationSize, this`maxNumOfGenerations, this`crossoverProbability,
               this`mutationProbability, this`alleleMutationProbability, this`elitism
      ensures populationSize == if size >= 2 then size as nat else old(populationSize)
      ensures size < 2 ==> populationSize == old(populationSize)
      ensures maxNumOfGenerations == maxGenerations
      ensures crossoverProbability == crossoverProb && mutationProbability == mutationProb
      ensures alleleMutationProbability == alleleMutationProb && elitism == elitismOn
    {
      if size >= 2 {
        populationSize := size as nat;
      }
      maxNumOfGenerations := maxGenerations;
      crossoverProbability := crossoverProb;
      mutationProbability := mutationProb;
      alleleMutationProbability := alleleMutationProb;
      elitism := elitismOn;
    }

    predicate ShouldStop()
      reads this
    {
      StopRule(stopPolicy, numOfGenerations, bestFitness, maxNumOfGenerations)
    }

    /** Score every slot in order: the ledger, its sum and its exact minimum
        and maximum, the maximum taken from the last slot that holds it. */
    method ScorePopulation()
      requires |population| == populationSize >= 2
      modifies this`ledger, this`fitnessSum, this`genMinFitness, this`genBestFitness,
               this`genBestIndividual, this`genBestSlot
      ensures Scored() && IsLastMaxSlot(ledger, genBestSlot)
    {
      var pop := population;
      var seen: seq<real> := [];
      var sum: real := 0.0;
      var ext := Extremes(DBL_MAX, -DBL_MAX, genBestIndividual);
      ghost var slot: nat := 0;
      var i := 0;
      while i < populationSize
        invariant 0 <= i <= populationSize
        invariant |seen| == i
        invariant forall k :: 0 <= k < i ==> seen[k] == fitnessOf(pop[k])
        invariant ScanState(seen, sum, ext.min, ext.max, slot)
        invariant i > 0 ==> pop[slot] == ext.best
      {
        var f: real := fitnessOf(pop[i]);
        ScanStep(seen, sum, ext, slot, pop[i], f);
        slot := if f >= ext.max then i else slot;
        ext := UpdateCurrentGenMinMaxFitness(ext, pop[i], f);
        seen := seen + [f];
        sum := sum + f;
        i := i + 1;
      }
      ledger, fitnessSum := seen, sum;
      genMinFitness, genBestFitness, genBestIndividual, genBestSlot := ext.min, ext.max, ext.best, slot;
    }

    /** Rebuild the cumulative table from the ledger and its statistics:
        equal shares when min == max, shifted shares otherwise. */
    method ResetCumulativeMap()
      requires |ledger| == populationSize
      requires TableDefined(ledger, genMinFitness, genBestFitness, fitnessSum)
      modifies this`cumulative
      ensures cumulative == CumulativeTable(ledger, genMinFitness, genBestFitness, fitnessSum)
    {
      if genMinFitness == genBestFitness {
        cumulative := EqualShareRunningSums(populationSize);
      } else {
        var totalShifted := fitnessSum - (populationSize as real) * genMinFitness;
        assert totalShifted == ShiftedTotal(ledger, genMinFitness, fitnessSum);
        cumulative := ShiftedShareRunningSums(ledger, genMinFitness, totalShifted);
      }
    }

    /** Re-scan the maximum over all slots with `>=`. */
    method RescanBest()
      requires |ledger| == |population| > 0
      modifies this`genBestFitness, this`genBestIndividual, this`genBestSlot
      ensures IsLastMaxSlot(ledger, genBestSlot) && ledger[genBestSlot] == genBestFitness
      ensures IsMaxOf(genBestFitness, ledger) && population[genBestSlot] == genBestIndividual
    {
      genBestIndividual := population[0];
      genBestFitness := ledger[0];
      genBestSlot := 0;
      for i := 1 to |ledger|
        invariant IsLastMaxSlot(ledger[..i], genBestSlot) && ledger[genBestSlot] == genBestFitness
        invariant population[genBestSlot] == genBestIndividual
      {
        if ledger[i] >= genBestFitness {
          genBestIndividual := population[i];
          genBestFitness := ledger[i];
          genBestSlot := i;
        }
      }
      assert ledger[..|ledger|] == ledger;
    }

    /** Re-scan the minimum over all slots with `<=`. */
    method RescanMinimum()
      requires |ledger| > 0
      modifies this`genMinFitness
      ensures IsMinOf(genMinFitness, ledger)
    {
      genMinFitness := ledger[0];
      for i := 1 to |ledger|
        invariant IsMinOf(genMinFitness, ledger[..i])
      {
        if ledger[i] <= genMinFitness {
          genMinFitness := ledger[i];
        }
      }
      assert ledger[..|ledger|] == ledger;
    }

    /** The statistics both initialisation and copyNextGeneration finish
        with: the average fitness and a rebuilt wheel. */
    method RefreshWheel()
      requires Scored()
      modifies this`avgFitness, this`cumulative
      ensures avgFitness == fitnessSum / (populationSize as real)
      ensures avgFitness * (populationSize as real) == fitnessSum
      ensures TableDefined(ledger, genMinFitness, genBestFitness, fitnessSum)
      ensures cumulative == CumulativeTable(ledger, genMinFitness, genBestFitness, fitnessSum)
      ensures IsTableOf(cumulative, ledger, genMinFitness, genBestFitness, fitnessSum)
    {
      avgFitness := fitnessSum / (populationSize as real);
      DivMul(fitnessSum, populationSize as real);
      ExactStatsTableDefined(ledger, genMinFitness, genBestFitness, fitnessSum);
      ResetCumulativeMap();
      TableOfIsCumulativeTable(cumulative, ledger, genMinFitness, genBestFitness, fitnessSum);
    }

    /** Score the first population. The slots are allocated once, on the first
        call, with the population size of that moment; the run-best restarts
        from this population's best. */
    method InitializeRandomPopulation(initial: seq<T>)
      requires populationSize >= 2 && |initial| == populationSize
      requires capacity == 0 || populationSize <= capacity
      modifies this`capacity, this`population, this`ledger, this`fitnessSum, this`genMinFitness,
               this`genBestFitness, this`genBestIndividual, this`genBestSlot,
               this`bestFitness, this`bestIndividual, this`avgFitness, this`cumulative
      ensures Valid()
      ensures population == initial
      ensures bestFitness == genBestFitness && bestIndividual == genBestIndividual
      ensures capacity == if old(capacity) == 0 then populationSize else old(capacity)
    {
      if capacity == 0 {
        capacity := populationSize;
      }
      ScoreInitial(initial);
    }

    /** The scoring half of initialisation: install initial, score it and
        restart the run-best from its best. */
    method ScoreInitial(initial: seq<T>)
      requires populationSize >= 2 && |initial| == populationSize
      modifies this`population, this`ledger, this`fitnessSum, this`genMinFitness,
               this`genBestFitness, this`genBestIndividual, this`genBestSlot,
               this`bestFitness, this`bestIndividual, this`avgFitness, this`cumulative
      ensures Valid()
      ensures population == initial
      ensures bestFitness == genBestFitness && bestIndividual == genBestIndividual
    {
      population := initial;
      ScorePopulation();
      assert population == initial;
      TakeGenerationBest();
      RefreshWheel();
    }

    /** The run-best restarts from the generation's best. */
    method TakeGenerationBest()
      requires Scored()
      modifies this`bestFitness, this`bestIndividual
      ensures bestFitness == genBestFitness && bestIndividual == genBestIndividual
      ensures fitnessOf(bestIndividual) == bestFitness
    {
      bestFitness := genBestFitness;
      bestIndividual := genBestIndividual;
    }

    /** Overwrite one slot of a scored generation with indiv and bring the
        sum, maximum and minimum up to date, re-scanning as Elitism.RescanMax
        and Elitism.RescanMin decide. */
    method ReplaceElite(slot: nat, indiv: T)
      requires Scored() && slot < populationSize
      modifies this`population, this`ledger, this`fitnessSum, this`genMinFitness,
               this`genBestFitness, this`genBestIndividual, this`genBestSlot
      ensures Scored()
      ensures population == old(population)[slot := indiv] && ledger[slot] == fitnessOf(indiv)
    {
      var incoming := fitnessOf(indiv);
      var replacedFitness := ledger[slot];
      ghost var scored := ledger;
      ghost var ext := Elitism.Extrema(genMinFitness, genBestFitness);
      population := population[slot := indiv];
      ledger := ledger[slot := incoming];
      SumUpdate(scored, slot, incoming);
      fitnessSum := fitnessSum + (incoming - replacedFitness);
      Elitism.KeptExtremaExact(scored, ext, slot, incoming);
      if Elitism.RescanMax(replacedFitness, incoming, genBestFitness) {
        RescanBest();
      }
      if Elitism.RescanMin(replacedFitness, incoming, genMinFitness) {
        RescanMinimum();
      }
    }

    /** Install the next generation and score it; with elitism, the slot
        eliteSlot then receives the previous generation's best individual.
        The run-best moves only on strict improvement; the average and the
        wheel are rebuilt. */
    method CopyNextGeneration(next: seq<T>, eliteSlot: nat)
      requires Valid()
      requires |next| == populationSize
      requires elitism ==> eliteSlot < populationSize
      modifies this`population, this`ledger, this`fitnessSum, this`genMinFitness,
               this`genBestFitness, this`genBestIndividual, this`genBestSlot,
               this`bestFitness, this`bestIndividual, this`avgFitness, this`cumulative
      ensures Valid()
      ensures !elitism ==> population == next
      ensures elitism ==> eliteSlot < |next| && population == next[eliteSlot := old(genBestIndividual)]
      ensures elitism ==> ledger[eliteSlot] == old(genBestFitness) && genBestFitness >= old(genBestFitness)
      ensures bestFitness == if genBestFitness > old(bestFitness) then genBestFitness else old(bestFitness)
      ensures bestIndividual == if genBestFitness > old(bestFitness) then genBestIndividual else old(bestIndividual)
    {
      InstallGeneration(next, eliteSlot);
      KeepRunBest();
      RefreshWheel();
    }

    /** The run-best moves to the generation's best only on strict
        improvement, so it stays at least the generation's best. */
    method KeepRunBest()
      requires Scored() && fitnessOf(bestIndividual) == bestFitness
      modifies this`bestFitness, this`bestIndividual
      ensures bestFitness == if genBestFitness > old(bestFitness) then genBestFitness else old(bestFitness)
      ensures bestIndividual == if genBestFitness > old(bestFitness) then genBestIndividual else old(bestIndividual)
      ensures fitnessOf(bestIndividual) == bestFitness && genBestFitness <= bestFitness
    {
      if genBestFitness > bestFitness {
        bestFitness := genBestFitness;
        bestIndividual := genBestIndividual;
      }
    }

    /** The scoring half of copyNextGeneration: install next, score it and
        put the previous generation's best into the elite slot. */
    method InstallGeneration(next: seq<T>, eliteSlot: nat)
      requires Scored()
      requires |next| == populationSize
      requires elitism ==> eliteSlot < populationSize
      modifies this`population, this`ledger, this`fitnessSum, this`genMinFitness,
               this`genBestFitness, this`genBestIndividual, this`genBestSlot
      ensures Scored()
      ensures !elitism ==> population == next
      ensures elitism ==> eliteSlot < |next| && population == next[eliteSlot := old(genBestIndividual)]
      ensures elitism ==> ledger[eliteSlot] == old(genBestFitness) && genBestFitness >= old(genBestFitness)
    {
      var prevGenBestIndividual := genBestIndividual;
      population := next;
      ScorePopulation();
      if elitism {
        ReplaceElite(eliteSlot, prevGenBestIndividual);
      }
    }

    /** What the engine decides for slot i from its draws: cross exactly when
        the coin is at most the crossover probability, then with parents as
        selectCrossOverParents picks them; mutate exactly when the mutation
        coin is at most the mutation probability. */
    predicate IsSlotPlan(d: SlotDraws<R>, p: SlotPlan)
      reads this
      requires Valid()
    {
      && (p.source.Offspring? <==> d.crossover <= crossoverProbability)
      && (p.source.Offspring? ==>
            && p.source.parent1 < populationSize && p.source.parent2 < populationSize
            && Selector.IsParentPair(cumulative, ledger, d.wheel1, d.wheel2, p.source.parent1, p.source.parent2))
      && (p.mutate <==> d.mutation <= mutationProbability)
    }

    /** The individual a plan yields in slot i. */
    function Realise(i: nat, d: SlotDraws<R>, p: SlotPlan): T
      reads this
      requires i < |population|
      requires p.source.Offspring? ==> p.source.parent1 < |population| && p.source.parent2 < |population|
    {
      var base := match p.source
        case Carry => population[i]
        case Offspring(a, b) => crossOverOp(population[a], population[b], d.crossOp);
      if p.mutate then mutateOp(base, d.mutateOp) else base
    }

    /** Build the next generation slot by slot (the inner loop of run). */
    method BreedGeneration(draws: seq<SlotDraws<R>>) returns (next: seq<T>, plan: seq<SlotPlan>)
      requires Valid() && |draws| == populationSize
      ensures |next| == |plan| == populationSize
      ensures forall i :: 0 <= i < populationSize ==>
        IsSlotPlan(draws[i], plan[i]) && next[i] == Realise(i, draws[i], plan[i])
    {
      next, plan := [], [];
      for i := 0 to populationSize
        invariant |next| == |plan| == i
        invariant forall k :: 0 <= k < i ==> IsSlotPlan(draws[k], plan[k]) && next[k] == Realise(k, draws[k], plan[k])
      {
        var d := draws[i];
        var source := Carry;
        var indiv := population[i];
        if d.crossover <= crossoverProbability {
          var p1, p2 := Selector.SelectCrossOverParents(cumulative, ledger, d.wheel1, d.wheel2);
          source := Offspring(p1, p2);
          indiv := crossOverOp(population[p1], population[p2], d.crossOp);
        }
        var mutate := d.mutation <= mutationProbability;
        if mutate {
          indiv := mutateOp(indiv, d.mutateOp);
        }
        next, plan := next + [indiv], plan + [SlotPlan(source, mutate)];
      }
    }

    /** Draws of one generation that run can consume at this population size. */
    predicate Fits(g: GenerationDraws<R>)
      reads this
    {
      |g.slots| == populationSize && (elitism ==> g.eliteSlot < populationSize)
    }

    /** One pass of run's loop: breed the next generation, install it and
        count it. */
    method NextGeneration(g: GenerationDraws<R>)
      requires Valid() && Fits(g)
      modifies this`numOfGenerations, this`population, this`ledger, this`fitnessSum,
               this`genMinFitness, this`genBestFitness, this`genBestIndividual, this`genBestSlot,
               this`bestFitness, this`bestIndividual, this`avgFitness, this`cumulative
      ensures Valid()
      ensures numOfGenerations == old(numOfGenerations) + 1
      ensures bestFitness >= old(bestFitness)
    {
      var next, _ := BreedGeneration(g.slots);
      numOfGenerations := numOfGenerations + 1;
      CopyNextGeneration(next, g.eliteSlot);
    }

    /** Initialise, reset the generation counter to 0, then breed and install
        generations until shouldStop holds or the draws run out; returns the
        number of generations made. The ghost trace holds the run-best at
        each stop check: it never decreases, and the check failed at every
        one but the last. */
    method Run(initial: seq<T>, generations: seq<GenerationDraws<R>>)
      returns (made: nat, ghost trace: seq<real>)
      requires populationSize >= 2 && |initial| == populationSize
      requires capacity == 0 || populationSize <= capacity
      requires forall k :: 0 <= k < |generations| ==> Fits(generations[k])
      modifies this`capacity, this`numOfGenerations, this`population, this`ledger, this`fitnessSum,
               this`genMinFitness, this`genBestFitness, this`genBestIndividual, this`genBestSlot,
               this`bestFitness, this`bestIndividual, this`avgFitness, this`cumulative
      ensures Valid()
      ensures made <= |generations| && numOfGenerations == made
      ensures ShouldStop() || made == |generations|
      ensures stopPolicy == GenerationCeiling ==> made == Min(Max(maxNumOfGenerations, 0), |generations|)
      ensures |trace| == made + 1 && trace[0] == MaxOf(Fitnesses(fitnessOf, initial)) && trace[made] == bestFitness
      ensures NonDecreasing(trace)
      ensures NeverStoppedBefore(stopPolicy, trace, made, maxNumOfGenerations)
    {
      InitializeRandomPopulation(initial);
      InitialBest(initial);
      numOfGenerations := 0;
      made, trace := Evolve(generations);
    }

    /** The loop of run, from generation 0 on. */
    method Evolve(generations: seq<GenerationDraws<R>>) returns (made: nat, ghost trace: seq<real>)
      requires Valid() && numOfGenerations == 0
      requires forall k :: 0 <= k < |generations| ==> Fits(generations[k])
      modifies this`capacity, this`numOfGenerations, this`population, this`ledger, this`fitnessSum,
               this`genMinFitness, this`genBestFitness, this`genBestIndividual, this`genBestSlot,
               this`bestFitness, this`bestIndividual, this`avgFitness, this`cumulative
      ensures Valid()
      ensures made <= |generations| && numOfGenerations == made
      ensures ShouldStop() || made == |generations|
      ensures stopPolicy == GenerationCeiling ==> made == Min(Max(maxNumOfGenerations, 0), |generations|)
      ensures |trace| == made + 1 && trace[0] == old(bestFitness) && trace[made] == bestFitness
      ensures NonDecreasing(trace)
      ensures NeverStoppedBefore(stopPolicy, trace, made, maxNumOfGenerations)
    {
      made := 0;
      trace := [bestFitness];
      while !ShouldStop() && made < |generations|
        invariant Valid()
        invariant made <= |generations| && numOfGenerations == made
        invariant stopPolicy == GenerationCeiling ==> made <= Max(maxNumOfGenerations, 0)
        invariant |trace| == made + 1 && trace[0] == old(bestFitness) && trace[made] == bestFitness
        invariant NonDecreasing(trace)
        invariant NeverStoppedBefore(stopPolicy, trace, made, maxNumOfGenerations)
        decreases |generations| - made
      {
        assert Fits(generations[made]);
        ghost var before := trace;
        NextGeneration(generations[made]);
        made := made + 1;
        trace := trace + [bestFitness];
        TraceStep(stopPolicy, before, bestFitness, made - 1, maxNumOfGenerations);
      }
    }

    /** Right after initialisation the run-best is the initial population's
        maximum fitness. */
    lemma InitialBest(initial: seq<T>)
      requires Valid() && population == initial && bestFitness == genBestFitness
      ensures bestFitness == MaxOf(Fitnesses(fitnessOf, initial))
    {
      var f := Fitnesses(fitnessOf, initial);
      assert f == ledger;
      MaxOfUnique(bestFitness, MaxOf(f), f);
    }

    /** The table a valid engine draws against is a wheel: every entry in
        [0, 1], non-decreasing in slot order, the last entry exactly 1. */
    lemma TableIsWheel()
      requires Valid()
      ensures |cumulative| == populationSize
      ensures forall i :: 0 <= i < |cumulative| ==> 0.0 <= cumulative[i] <= 1.0
      ensures forall i, j :: 0 <= i <= j < |cumulative| ==> cumulative[i] <= cumulative[j]
      ensures cumulative[|cumulative| - 1] == 1.0
    {
      TableOfIsCumulativeTable(cumulative, ledger, genMinFitness, genBestFitness, fitnessSum);
      if genMinFitness == genBestFitness {
        EqualShareTable(ledger, genMinFitness, genBestFitness, fitnessSum);
        var n := |ledger|;
        forall i | 0 <= i < n
          ensures 0.0 <= cumulative[i] <= 1.0
        {
          EqualShareArithmetic(i + 1, n, n);
        }
      } else {
        GeneralTable(ledger, genMinFitness, genBestFitness, fitnessSum);
      }
    }
  }

  /** A maximum is unique. */
  lemma MaxOfUnique(a: real, b: real, s: seq<real>)
    requires IsMaxOf(a, s) && IsMaxOf(b, s)
    ensures a == b
  {
  }
}
