/** The GA that minimises a function of two variables
    (src/examples/math_functions/function_minimizer_ga.cpp). An individual
    is a point (x, y); its fitness is the negated function value; crossover
    takes a weighted average of the parents; mutation moves one coordinate
    by a bounded increment and clamps it back into the box. Doubles are
    modelled as reals; the random draws are parameters. */
module FunctionMinimizer {

  /** function_variables. */
  datatype FunctionVariables = FunctionVariables(x: real, y: real)

  /** The range [low, high] of a uniform_real_distribution. */
  datatype Interval = Interval(low: real, high: real)

  function Abs(v: real): real
  {
    if v < 0.0 then -v else v
  }

  predicate Between(v: real, a: real, b: real)
  {
    (a <= v <= b) || (b <= v <= a)
  }

  /** getFitness: the function to minimise is a parameter. */
  function GetFitness(func: (real, real) -> real, indiv: FunctionVariables): (fitness: real)
    ensures fitness + func(indiv.x, indiv.y) == 0.0
  {
    -1.0 * func(indiv.x, indiv.y)
  }

  /** Maximising fitness is minimising the function: a point is fitter
      exactly when the function is lower there. */
  lemma FitterIffLower(func: (real, real) -> real, a: FunctionVariables, b: FunctionVariables)
    ensures GetFitness(func, a) > GetFitness(func, b) <==> func(a.x, a.y) < func(b.x, b.y)
    ensures GetFitness(func, a) == GetFitness(func, b) <==> func(a.x, a.y) == func(b.x, b.y)
  {
  }

  /** crossOver with the parent1 weight as a parameter. */
  function CrossOver(parent1: FunctionVariables, parent2: FunctionVariables, weight: real): (r: FunctionVariables)
    ensures 0.0 <= weight <= 1.0 ==> Between(r.x, parent1.x, parent2.x) && Between(r.y, parent1.y, parent2.y)
  {
    var rx := weight * parent1.x + (1.0 - weight) * parent2.x;
    var ry := weight * parent1.y + (1.0 - weight) * parent2.y;
    assert 0.0 <= weight <= 1.0 ==> Between(rx, parent1.x, parent2.x) by {
      if 0.0 <= weight <= 1.0 {
        WeightedAverageBetween(parent1.x, parent2.x, weight);
      }
    }
    assert 0.0 <= weight <= 1.0 ==> Between(ry, parent1.y, parent2.y) by {
      if 0.0 <= weight <= 1.0 {
        WeightedAverageBetween(parent1.y, parent2.y, weight);
      }
    }
    FunctionVariables(rx, ry)
  }

  lemma WeightedAverageBetween(a: real, b: real, w: real)
    requires 0.0 <= w <= 1.0
    ensures Between(w * a + (1.0 - w) * b, a, b)
  {
    var v := w * a + (1.0 - w) * b;
    assert v - b == w * (a - b);
    assert a - v == (1.0 - w) * (a - b);
    if a <= b {
      assert w * (a - b) <= 0.0 by {
        MulSigns(w, b - a);
      }
      assert (1.0 - w) * (a - b) <= 0.0 by {
        MulSigns(1.0 - w, b - a);
      }
    } else {
      assert w * (a - b) >= 0.0 by {
        MulSigns(w, a - b);
      }
      assert (1.0 - w) * (a - b) >= 0.0 by {
        MulSigns(1.0 - w, a - b);
      }
    }
  }

  lemma MulSigns(u: real, v: real)
    requires u >= 0.0 && v >= 0.0
    ensures u * v >= 0.0
  {
  }

  /** The child lies on the line through the parents: its offset from the
      second parent is the weight times the parents' difference. */
  lemma CrossOverOnSegment(parent1: FunctionVariables, parent2: FunctionVariables, weight: real)
    ensures var r := CrossOver(parent1, parent2, weight);
      r.x - parent2.x == weight * (parent1.x - parent2.x)
      && r.y - parent2.y == weight * (parent1.y - parent2.y)
  {
  }

  /** The weight picks the parents at its ends, and swapping the parents
      is complementing the weight. */
  lemma CrossOverEnds(parent1: FunctionVariables, parent2: FunctionVariables, weight: real)
    ensures CrossOver(parent1, parent2, 1.0) == parent1
    ensures CrossOver(parent1, parent2, 0.0) == parent2
    ensures CrossOver(parent1, parent2, weight) == CrossOver(parent2, parent1, 1.0 - weight)
    ensures CrossOver(parent1, parent1, weight) == parent1
  {
  }

  class FunctionMinimizerGa {
    /** VAR_MIN_VALUES and VAR_MAX_VALUES. */
    var varMinValues: FunctionVariables
    var varMaxValues: FunctionVariables
    /** The ranges of the distributions that draw x and y. */
    var uniformX: Interval
    var uniformY: Interval
    /** The ranges of the distributions that draw the mutation increments. */
    var uniformIncrementX: Interval
    var uniformIncrementY: Interval

    /** The constructor with the same bounds for both variables. */
    constructor Uniform(minValues: real, maxValues: real)
      ensures varMinValues == FunctionVariables(minValues, minValues)
      ensures varMaxValues == FunctionVariables(maxValues, maxValues)
      ensures uniformX == uniformY == Interval(minValues, maxValues)
      ensures uniformIncrementX == uniformIncrementY == IncrementRange(minValues, maxValues)
      ensures Valid()
    {
      new;
      InitMinMax(minValues, minValues, maxValues, maxValues);
    }

    /** The constructor with bounds per variable. */
    constructor (minValueX: real, minValueY: real, maxValueX: real, maxValueY: real)
      ensures varMinValues == FunctionVariables(minValueX, minValueY)
      ensures varMaxValues == FunctionVariables(maxValueX, maxValueY)
      ensures uniformX == Interval(minValueX, maxValueX) && uniformY == Interval(minValueY, maxValueY)
      ensures uniformIncrementX == IncrementRange(minValueX, maxValueX)
      ensures uniformIncrementY == IncrementRange(minValueY, maxValueY)
      ensures Valid()
    {
      new;
      InitMinMax(minValueX, minValueY, maxValueX, maxValueY);
    }

    /** init_min_max. */
    method InitMinMax(minValueX: real, minValueY: real, maxValueX: real, maxValueY: real)
      modifies this
      ensures varMinValues == FunctionVariables(minValueX, minValueY)
      ensures varMaxValues == FunctionVariables(maxValueX, maxValueY)
      ensures uniformX == Interval(minValueX, maxValueX) && uniformY == Interval(minValueY, maxValueY)
      ensures uniformIncrementX == IncrementRange(minValueX, maxValueX)
      ensures uniformIncrementY == IncrementRange(minValueY, maxValueY)
    {
      varMinValues := FunctionVariables(minValueX, minValueY);
      varMaxValues := FunctionVariables(maxValueX, maxValueY);
      uniformX := Interval(minValueX, maxValueX);
      uniformY := Interval(minValueY, maxValueY);
      var xIncrementSize := 0.1 * Abs(maxValueX - minValueX);
      uniformIncrementX := Interval(-xIncrementSize, xIncrementSize);
      var yIncrementSize := 0.1 * Abs(maxValueY - minValueY);
      uniformIncrementY := Interval(-yIncrementSize, yIncrementSize);
    }

    /** The distributions agree with the bounds, as init_min_max leaves
        them. */
    predicate Valid()
      reads this
    {
      && uniformX == Interval(varMinValues.x, varMaxValues.x)
      && uniformY == Interval(varMinValues.y, varMaxValues.y)
      && uniformIncrementX == IncrementRange(varMinValues.x, varMaxValues.x)
      && uniformIncrementY == IncrementRange(varMinValues.y, varMaxValues.y)
    }

    /** The box of the variables is well formed. */
    predicate BoxValid()
      reads this
    {
      varMinValues.x <= varMaxValues.x && varMinValues.y <= varMaxValues.y
    }

    predicate InBox(indiv: FunctionVariables)
      reads this
    {
      varMinValues.x <= indiv.x <= varMaxValues.x && varMinValues.y <= indiv.y <= varMaxValues.y
    }

    /** getRandomIndiv with its two draws as parameters: a draw from each
        variable's distribution gives a point of the box. */
    function GetRandomIndiv(drawX: real, drawY: real): (r: FunctionVariables)
      reads this
      ensures Valid() && uniformX.low <= drawX <= uniformX.high && uniformY.low <= drawY <= uniformY.high ==> InBox(r)
    {
      FunctionVariables(drawX, drawY)
    }

    /** boundX: clamp x into [min.x, max.x]; y is untouched. */
    function BoundX(indiv: FunctionVariables): (r: FunctionVariables)
      reads this
      ensures r.y == indiv.y
      ensures varMinValues.x <= varMaxValues.x ==> varMinValues.x <= r.x <= varMaxValues.x
      ensures varMinValues.x <= indiv.x <= varMaxValues.x ==> r == indiv
    {
      if indiv.x < varMinValues.x then indiv.(x := varMinValues.x)
      else if indiv.x > varMaxValues.x then indiv.(x := varMaxValues.x)
      else indiv
    }

    /** boundY: clamp y into [min.y, max.y]; x is untouched. */
    function BoundY(indiv: FunctionVariables): (r: FunctionVariables)
      reads this
      ensures r.x == indiv.x
      ensures varMinValues.y <= varMaxValues.y ==> varMinValues.y <= r.y <= varMaxValues.y
      ensures varMinValues.y <= indiv.y <= varMaxValues.y ==> r == indiv
    {
      if indiv.y < varMinValues.y then indiv.(y := varMinValues.y)
      else if indiv.y > varMaxValues.y then indiv.(y := varMaxValues.y)
      else indiv
    }

    /** Clamping twice is clamping once, given a well-formed range. */
    lemma BoundIdempotent(indiv: FunctionVariables)
      requires BoxValid()
      ensures BoundX(BoundX(indiv)) == BoundX(indiv)
      ensures BoundY(BoundY(indiv)) == BoundY(indiv)
    {
    }

    /** The clamped x is the point of [min.x, max.x] nearest to x, and the
        same for y. */
    lemma BoundNearest(indiv: FunctionVariables, z: real)
      requires BoxValid()
      ensures varMinValues.x <= z <= varMaxValues.x ==> Abs(BoundX(indiv).x - indiv.x) <= Abs(z - indiv.x)
      ensures varMinValues.y <= z <= varMaxValues.y ==> Abs(BoundY(indiv).y - indiv.y) <= Abs(z - indiv.y)
    {
    }

    /** Without a well-formed range clamping is not idempotent: with
        min.x = 1 and max.x = 0, x = 0 goes to 1 and then back to 0. */
    lemma InvertedRangeNotIdempotent()
      requires varMinValues.x == 1.0 && varMaxValues.x == 0.0
      ensures BoundX(FunctionVariables(0.0, 0.0)) == FunctionVariables(1.0, 0.0)
      ensures BoundX(BoundX(FunctionVariables(0.0, 0.0))) == FunctionVariables(0.0, 0.0)
    {
    }

    /** mutate with the selection draw and the increment as parameters: a
        draw of at most 0.5 moves x, any other moves y. */
    function Mutate(indiv: FunctionVariables, selection: real, increment: real): (r: FunctionVariables)
      reads this
      ensures selection <= 0.5 ==> r.y == indiv.y && (varMinValues.x <= varMaxValues.x ==> varMinValues.x <= r.x <= varMaxValues.x)
      ensures selection > 0.5 ==> r.x == indiv.x && (varMinValues.y <= varMaxValues.y ==> varMinValues.y <= r.y <= varMaxValues.y)
    {
      if selection <= 0.5 then BoundX(indiv.(x := indiv.x + increment))
      else BoundY(indiv.(y := indiv.y + increment))
    }

    /** Mutation keeps a point of the box in the box. */
    lemma MutateKeepsBox(indiv: FunctionVariables, selection: real, increment: real)
      requires BoxValid() && InBox(indiv)
      ensures InBox(Mutate(indiv, selection, increment))
    {
    }

    /** A point of the box moves by at most the increment drawn, so by at
        most a tenth of the variable's range when the increment comes from
        its distribution. */
    lemma MutateStepBounded(indiv: FunctionVariables, selection: real, increment: real)
      requires BoxValid() && InBox(indiv)
      ensures var r := Mutate(indiv, selection, increment);
        Abs(r.x - indiv.x) <= Abs(increment) && Abs(r.y - indiv.y) <= Abs(increment)
      ensures var r := Mutate(indiv, selection, increment);
        Valid() && selection <= 0.5 && uniformIncrementX.low <= increment <= uniformIncrementX.high ==>
          10.0 * Abs(r.x - indiv.x) <= varMaxValues.x - varMinValues.x
      ensures var r := Mutate(indiv, selection, increment);
        Valid() && selection > 0.5 && uniformIncrementY.low <= increment <= uniformIncrementY.high ==>
          10.0 * Abs(r.y - indiv.y) <= varMaxValues.y - varMinValues.y
    {
    }
  }

  /** The increment distribution of init_min_max: plus or minus a tenth of
      the variable's range. */
  function IncrementRange(minValue: real, maxValue: real): (r: Interval)
    ensures r.low == -r.high && r.high >= 0.0
    ensures 10.0 * r.high == Abs(maxValue - minValue)
  {
    var incrementSize := 0.1 * Abs(maxValue - minValue);
    Interval(-incrementSize, incrementSize)
  }
}
