/** The one draw `random.choices(population, cum_weights=w)` makes (k = 1):
    without weights, the element at floor(roll * n); with cumulative
    weights, the checks it runs on them, then a right bisection of the
    cumulative weights at roll * total, where total is the last cumulative
    weight. The roll, a value of random.random() in [0, 1), is a
    parameter. */
module Choices {
  import opened Wrappers

  /** The exceptions the draw can raise. */
  datatype ChoiceError = IndexError | ValueError

  predicate Nondecreasing(a: seq<real>)
  {
    forall i, j :: 0 <= i < j < |a| ==> a[i] <= a[j]
  }

  /** bisect.bisect_right(a, x, lo, hi): binary search for the first
      position in [lo, hi) whose entry exceeds x, or hi. */
  function BisectRight(a: seq<real>, x: real, lo: nat, hi: nat): (r: nat)
    requires lo <= hi <= |a|
    ensures lo <= r <= hi
    decreases hi - lo
  {
    if lo < hi then
      var mid := (lo + hi) / 2;
      if x < a[mid] then BisectRight(a, x, lo, mid) else BisectRight(a, x, mid + 1, hi)
    else lo
  }

  /** On nondecreasing entries the bisection finds the insertion point:
      entries before it are at most x, and the entry at it, if inside
      [lo, hi), exceeds x. */
  lemma {:induction false} BisectRightSplits(a: seq<real>, x: real, lo: nat, hi: nat)
    requires lo <= hi <= |a| && Nondecreasing(a)
    ensures var r := BisectRight(a, x, lo, hi);
      && (forall i :: lo <= i < r ==> a[i] <= x)
      && (r < hi ==> x < a[r])
    decreases hi - lo
  {
    if lo < hi {
      var mid := (lo + hi) / 2;
      if x < a[mid] {
        BisectRightSplits(a, x, lo, mid);
      } else {
        BisectRightSplits(a, x, mid + 1, hi);
      }
    }
  }

  /** The single element random.choices returns, or the exception it
      raises, as in Python 3.9 and later (earlier versions do not reject a
      total that is not positive and bisect anyway): ValueError when the weights and the population differ in
      length, IndexError when both are empty (the last cumulative weight
      does not exist), ValueError when the total is not positive. */
  function Choose<T>(population: seq<T>, cumWeights: seq<real>, roll: real): (r: Result<T, ChoiceError>)
    ensures r.Err? <==> |cumWeights| != |population| || |population| == 0 || cumWeights[|population| - 1] <= 0.0
    ensures r.Ok? ==> r.value in population
  {
    var n := |population|;
    if |cumWeights| != n then Err(ValueError)
    else if n == 0 then Err(IndexError)
    else
      var total := cumWeights[n - 1];
      if total <= 0.0 then Err(ValueError)
      else Ok(population[BisectRight(cumWeights, roll * total, 0, n - 1)])
  }

  /** The kind of exception follows the order of the checks. */
  lemma ChooseErrors<T>(population: seq<T>, cumWeights: seq<real>, roll: real)
    ensures |cumWeights| != |population| ==> Choose(population, cumWeights, roll) == Err(ValueError)
    ensures |cumWeights| == |population| == 0 ==> Choose(population, cumWeights, roll) == Err(IndexError)
    ensures |cumWeights| == |population| > 0 && cumWeights[|population| - 1] <= 0.0 ==>
      Choose(population, cumWeights, roll) == Err(ValueError)
  {
  }

  /** With nondecreasing cumulative weights, element k is drawn exactly when
      x = roll * total falls in [cumWeights[k-1], cumWeights[k]) (the
      lower bound dropped for k = 0, the upper for the last element): each
      element is drawn with probability proportional to its own weight. */
  lemma ChooseInterval<T>(population: seq<T>, cumWeights: seq<real>, roll: real, x: real)
    requires |cumWeights| == |population| > 0 && cumWeights[|population| - 1] > 0.0
    requires Nondecreasing(cumWeights) && x == roll * cumWeights[|population| - 1]
    ensures var k := BisectRight(cumWeights, x, 0, |population| - 1);
      && Choose(population, cumWeights, roll) == Ok(population[k])
      && (k > 0 ==> cumWeights[k - 1] <= x)
      && (k < |population| - 1 ==> x < cumWeights[k])
  {
    BisectRightSplits(cumWeights, x, 0, |population| - 1);
  }

  /** random() * n lies in [0, n) for a roll in [0, 1), so its floor is a
      position of a non-empty population. */
  lemma UniformIndexInRange(roll: real, n: nat)
    requires 0.0 <= roll < 1.0 && n > 0
    ensures 0 <= (roll * n as real).Floor < n
  {
    assert roll * n as real < n as real by {
      assert (1.0 - roll) * n as real > 0.0;
    }
  }

  /** The single element random.choices returns when no weights are given:
      population[floor(roll * n)], which raises IndexError when the
      population is empty. */
  function ChooseUniform<T>(population: seq<T>, roll: real): (r: Result<T, ChoiceError>)
    requires 0.0 <= roll < 1.0
    ensures r.Err? <==> |population| == 0
    ensures r.Err? ==> r.error == IndexError
    ensures r.Ok? ==> r.value in population
  {
    var k := (roll * |population| as real).Floor;
    if |population| > 0 then UniformIndexInRange(roll, |population|); Ok(population[k])
    else Err(IndexError)
  }

  /** Element k is drawn without weights exactly when roll * n falls in
      [k, k + 1): each element is drawn with probability 1/n. */
  lemma ChooseUniformInterval<T>(population: seq<T>, roll: real, k: nat)
    requires 0.0 <= roll < 1.0 && k < |population|
    ensures k as real <= roll * |population| as real < k as real + 1.0 ==>
      ChooseUniform(population, roll) == Ok(population[k])
  {
  }

  /** random.choices(population, cum_weights=w) with k = 1, where w may be
      None: the uniform draw without weights, the weighted one otherwise. */
  function ChooseOne<T>(population: seq<T>, cumWeights: Option<seq<real>>, roll: real): (r: Result<T, ChoiceError>)
    requires 0.0 <= roll < 1.0
    ensures cumWeights.None? ==> (r.Err? <==> |population| == 0)
    ensures cumWeights.Some? ==> (r.Err? <==>
      |cumWeights.value| != |population| || |population| == 0 || cumWeights.value[|population| - 1] <= 0.0)
    ensures r.Ok? ==> r.value in population
  {
    match cumWeights
    case None => ChooseUniform(population, roll)
    case Some(w) => Choose(population, w, roll)
  }
}
