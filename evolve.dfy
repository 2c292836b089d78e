/** One generation of the evolutionary loop: rank the population by each
    fitness score, take the fittest of each ranking as parents, make the
    parent set duplicate free and backfill it from the distance ranking,
    draw one parent with cumulative weights, and breed mutated children from
    it. Also the creation of a random population. */
module Evolution {
  import opened Wrappers
  import opened Graph
  import opened Resolver
  import opened Mutation
  import opened Selection
  import opened Ranking
  import opened Cgp
  import opened Choices

  /** The three fitness scores an individual carries. */
  datatype Objective = Total | Distance | Target

  function Fitness(x: Individual, o: Objective): real
    reads x
  {
    match o
    case Total => x.totalFitness
    case Distance => x.distanceFitness
    case Target => x.targetFitness
  }

  function Keys(pop: seq<Individual>, o: Objective): seq<real>
    reads pop
  {
    seq(|pop|, i requires 0 <= i < |pop| reads pop => Fitness(pop[i], o))
  }

  /** The population sorted by one score, ascending and stable. */
  function Rank(pop: seq<Individual>, o: Objective): seq<Individual>
    reads pop
  {
    SortIndicesInRange(Keys(pop, o), |pop|);
    Permute(pop, SortIndices(Keys(pop, o), |pop|))
  }

  /** A ranking reorders the population and never decreases in the score
      it ranks by. */
  lemma RankSorted(pop: seq<Individual>, o: Objective)
    ensures |Rank(pop, o)| == |pop|
    ensures multiset(Rank(pop, o)) == multiset(pop)
    ensures forall i, j :: 0 <= i < j < |pop| ==> Fitness(Rank(pop, o)[i], o) <= Fitness(Rank(pop, o)[j], o)
  {
    var keys := Keys(pop, o);
    var order := SortIndices(keys, |pop|);
    SortIndicesStable(keys, |pop|);
    SortedPermutation(pop, keys, |pop|);
    assert pop[..|pop|] == pop;
    assert forall i :: 0 <= i < |pop| ==> Fitness(Rank(pop, o)[i], o) == keys[order[i]];
  }

  /** The top slice of a ranking holds the fittest: an individual of the
      population that is not in it scores no higher than any that is. */
  lemma TopSliceFittest(pop: seq<Individual>, o: Objective, n: nat)
    ensures var top := TopSlice(Rank(pop, o), n);
      forall x, y :: x in top && y in pop && y !in top ==> Fitness(y, o) <= Fitness(x, o)
  {
    var r := Rank(pop, o);
    var top := TopSlice(r, n);
    RankSorted(pop, o);
    forall x, y | x in top && y in pop && y !in top
      ensures Fitness(y, o) <= Fitness(x, o)
    {
      var j :| 0 <= j < |top| && top[j] == x;
      assert y in multiset(r);
      var i :| 0 <= i < |r| && r[i] == y;
      var m := |r| - |top|;
      assert r[m + j] == x;
      assert i < m + j by {
        assert top == r[m..];
      }
    }
  }

  /** A ranking holds exactly the individuals of the population. */
  lemma RankMembers(pop: seq<Individual>, o: Objective)
    ensures forall x :: x in Rank(pop, o) <==> x in pop
  {
    RankSorted(pop, o);
    assert forall x :: x in Rank(pop, o) <==> x in multiset(Rank(pop, o));
  }

  function Sum(numParents: seq<nat>): nat
    requires |numParents| == 3
  {
    numParents[0] + numParents[1] + numParents[2]
  }

  /** The fittest numParents[k] of the k-th ranking, concatenated; an
      individual that tops several rankings appears several times. */
  function Parents(pop: seq<Individual>, numParents: seq<nat>): seq<Individual>
    requires |numParents| == 3
    reads pop
  {
    TopSlice(Rank(pop, Total), numParents[0])
      + TopSlice(Rank(pop, Distance), numParents[1])
      + TopSlice(Rank(pop, Target), numParents[2])
  }

  /** The duplicate-free parents, backfilled from the distance ranking up
      to Sum(numParents); None where the backfill runs off the ranking. */
  function ParentSet(pop: seq<Individual>, numParents: seq<nat>): Option<seq<Individual>>
    requires |numParents| == 3
    reads pop
  {
    Backfill(Dedup(Parents(pop, numParents)), Rank(pop, Distance), numParents[1], Sum(numParents))
  }

  /** The parent random.choices draws for the given roll, uniformly when
      parentWeights is None, or the exception raised on the way:
      IndexError where the backfill runs off the ranking, otherwise
      whatever the draw itself raises. */
  function Draw(pop: seq<Individual>, numParents: seq<nat>, parentWeights: Option<seq<real>>, roll: real): Result<Individual, ChoiceError>
    requires |numParents| == 3 && 0.0 <= roll < 1.0
    reads pop
  {
    match ParentSet(pop, numParents)
    case None => Err(IndexError)
    case Some(ps) => ChooseOne(ps, parentWeights, roll)
  }

  /** Every parent is an individual of the population. */
  lemma ParentsMembers(pop: seq<Individual>, numParents: seq<nat>)
    requires |numParents| == 3
    ensures forall x :: x in Parents(pop, numParents) ==> x in pop
  {
    var a, b, c := Rank(pop, Total), Rank(pop, Distance), Rank(pop, Target);
    RankMembers(pop, Total);
    RankMembers(pop, Distance);
    RankMembers(pop, Target);
    TopSliceMembers(a, numParents[0]);
    TopSliceMembers(b, numParents[1]);
    TopSliceMembers(c, numParents[2]);
    var ta, tb, tc := TopSlice(a, numParents[0]), TopSlice(b, numParents[1]), TopSlice(c, numParents[2]);
    assert Parents(pop, numParents) == ta + tb + tc;
    forall x | x in ta + tb + tc
      ensures x in pop
    {
      assert x in ta || x in tb || x in tc;
    }
  }

  /** With every count positive and at most the population size, the
      parents number exactly Sum(numParents), repeats included. */
  lemma ParentsLength(pop: seq<Individual>, numParents: seq<nat>)
    requires |numParents| == 3 && forall i :: 0 <= i < 3 ==> 0 < numParents[i] <= |pop|
    ensures |Parents(pop, numParents)| == Sum(numParents)
  {
    RankSorted(pop, Total);
    RankSorted(pop, Distance);
    RankSorted(pop, Target);
  }

  /** With positive parent counts, the parent set can be filled exactly
      when the population holds at least Sum(numParents) distinct
      individuals. */
  lemma ParentSetSucceedsIff(pop: seq<Individual>, numParents: seq<nat>)
    requires |numParents| == 3 && numParents[0] > 0 && numParents[1] > 0 && numParents[2] > 0
    ensures ParentSet(pop, numParents).Some? <==> Sum(numParents) <= |Elements(pop)|
  {
    var ranking := Rank(pop, Distance);
    var parents := Parents(pop, numParents);
    var start := Dedup(parents);
    DedupLength(parents);
    RankMembers(pop, Distance);
    ParentsMembers(pop, numParents);
    assert Elements(ranking) == Elements(pop);
    assert forall x :: x in start ==> x in ranking by {
      assert forall x :: x in start ==> x in Elements(parents);
    }
    TopDistanceInParents(pop, numParents);
    BackfillSucceedsIff(start, ranking, numParents[1], Sum(numParents));
  }

  /** The top numParents[1] entries of the distance ranking are parents. */
  lemma TopDistanceInParents(pop: seq<Individual>, numParents: seq<nat>)
    requires |numParents| == 3 && numParents[1] > 0
    ensures var ranking := Rank(pop, Distance);
      forall i :: 0 <= i < |ranking| && |ranking| - numParents[1] <= i ==> ranking[i] in Dedup(Parents(pop, numParents))
  {
    var ranking := Rank(pop, Distance);
    var parents := Parents(pop, numParents);
    var mid := TopSlice(ranking, numParents[1]);
    forall i | 0 <= i < |ranking| && |ranking| - numParents[1] <= i
      ensures ranking[i] in Dedup(parents)
    {
      assert mid[i - (|ranking| - |mid|)] == ranking[i];
      assert ranking[i] in parents;
      assert ranking[i] in Elements(parents);
    }
  }

  /** A filled parent set is duplicate free, has exactly Sum(numParents)
      members, all from the population, and starts with the deduplicated
      parents in order of first appearance. */
  lemma ParentSetShape(pop: seq<Individual>, numParents: seq<nat>)
    requires |numParents| == 3 && numParents[0] > 0 && numParents[1] > 0 && numParents[2] > 0
    requires ParentSet(pop, numParents).Some?
    ensures var ps := ParentSet(pop, numParents).value;
      && Distinct(ps)
      && |ps| == Sum(numParents)
      && ps[..|Dedup(Parents(pop, numParents))|] == Dedup(Parents(pop, numParents))
      && forall x :: x in ps ==> x in pop
  {
    var parents := Parents(pop, numParents);
    RankSorted(pop, Total);
    RankSorted(pop, Distance);
    RankSorted(pop, Target);
    DedupLength(parents);
    BackfillShape(Dedup(parents), Rank(pop, Distance), numParents[1], Sum(numParents));
    ParentSetMembers(pop, numParents);
  }

  /** child is what Mutate makes of parent with draws d at rate rate. */
  ghost predicate IsChild(child: Individual, parent: Individual, d: seq<NodeDraw>, rate: real)
    reads child, child.nodes, parent, parent.nodes
  {
    && parent.Valid() && DrawsFit(d, parent.numNodes)
    && child.Valid() && child.numNodes == parent.numNodes
    && child.Genome() == MutateGenome(parent.Genome(), d, rate)
    && child.Actives() == OutputMask(parent.numNodes)
    && child.totalFitness == 0.0 && !child.activeNodesDetermined
    && child.distanceFitness == parent.distanceFitness && child.targetFitness == parent.targetFitness
  }

  /** No node object is shared by two individuals of xs, as when each was
      built by the constructor or by a deep copy. */
  ghost predicate NodesApart(xs: seq<Individual>)
    reads set x | x in xs
  {
    forall i, j, p, q :: 0 <= i < j < |xs| && 0 <= p < |xs[i].nodes| && 0 <= q < |xs[j].nodes| ==>
      xs[i].nodes[p] != xs[j].nodes[q]
  }

  /** Appending an individual that shares no node with xs keeps the nodes
      of xs + [x] apart. */
  lemma NodesApartAppend(xs: seq<Individual>, x: Individual)
    requires NodesApart(xs)
    requires forall i, p, q :: 0 <= i < |xs| && 0 <= p < |xs[i].nodes| && 0 <= q < |x.nodes| ==>
      xs[i].nodes[p] != x.nodes[q]
    ensures NodesApart(xs + [x])
  {
    var ys := xs + [x];
    forall i, j, p, q | 0 <= i < j < |ys| && 0 <= p < |ys[i].nodes| && 0 <= q < |ys[j].nodes|
      ensures ys[i].nodes[p] != ys[j].nodes[q]
    {
      if j == |xs| {
        assert ys[i] == xs[i] && ys[j] == x;
      } else {
        assert ys[i] == xs[i] && ys[j] == xs[j];
      }
    }
  }

  /** One generation, for a given roll of the parent draw: the result is
      the parents (with repeats) followed by numChildren children of the one
      drawn parent. Every individual has numNodes nodes. */
  method Evolve(pop: seq<Individual>, mutRate: real, numParents: seq<nat>, numChildren: nat,
                parentWeights: Option<seq<real>>, roll: real, numNodes: nat, draws: seq<seq<NodeDraw>>)
    returns (r: Result<seq<Individual>, ChoiceError>)
    requires |numParents| == 3 && 0.0 <= roll < 1.0
    requires forall x :: x in pop ==> x.Valid() && x.numNodes == numNodes
    requires |draws| == numChildren && forall c :: 0 <= c < numChildren ==> DrawsFit(draws[c], numNodes)
    ensures r.Err? <==> old(Draw(pop, numParents, parentWeights, roll)).Err?
    ensures r.Err? ==> r.error == old(Draw(pop, numParents, parentWeights, roll)).error
    ensures r.Ok? ==>
      var parents := old(Parents(pop, numParents));
      var parent := old(Draw(pop, numParents, parentWeights, roll)).value;
      && |r.value| == |parents| + numChildren
      && r.value[..|parents|] == parents
      && parent in pop
      && var children := r.value[|parents|..];
         && Distinct(children) && NodesApart(children)
         && (forall c :: 0 <= c < numChildren ==>
               fresh(children[c]) && IsChild(children[c], parent, draws[c], mutRate))
         && forall c, p :: 0 <= c < numChildren && 0 <= p < |children[c].nodes| ==> fresh(children[c].nodes[p])
  {
    var parents, choice := ChooseParent(pop, numParents, parentWeights, roll);
    if choice.Err? {
      return Err(choice.error);
    }
    var out := Reproduce(parents, [choice.value], mutRate, numChildren, draws);
    r := Ok(out);
  }

  /** The parents, and the parent random.choices returns or the exception
      raised on the way there. */
  method ChooseParent(pop: seq<Individual>, numParents: seq<nat>, parentWeights: Option<seq<real>>, roll: real)
    returns (parents: seq<Individual>, choice: Result<Individual, ChoiceError>)
    requires |numParents| == 3 && 0.0 <= roll < 1.0
    ensures parents == old(Parents(pop, numParents))
    ensures choice == old(Draw(pop, numParents, parentWeights, roll))
    ensures choice.Ok? ==> choice.value in pop
  {
    var parentSet;
    parents, parentSet := SelectParents(pop, numParents);
    if parentSet.None? {
      return parents, Err(IndexError);
    }
    choice := ChooseOne(parentSet.value, parentWeights, roll);
    if choice.Ok? {
      DrawFromPopulation(pop, numParents, parentWeights, roll);
    }
  }

  /** A drawn parent is a member of the population. */
  lemma DrawFromPopulation(pop: seq<Individual>, numParents: seq<nat>, parentWeights: Option<seq<real>>, roll: real)
    requires |numParents| == 3 && 0.0 <= roll < 1.0 && Draw(pop, numParents, parentWeights, roll).Ok?
    ensures Draw(pop, numParents, parentWeights, roll).value in pop
  {
    ParentSetMembers(pop, numParents);
  }

  /** The parents and the backfilled parent set of one generation; None
      where the backfill steps past the start of the distance ranking. */
  method SelectParents(pop: seq<Individual>, numParents: seq<nat>)
    returns (parents: seq<Individual>, parentSet: Option<seq<Individual>>)
    requires |numParents| == 3
    ensures parents == Parents(pop, numParents) && parentSet == ParentSet(pop, numParents)
  {
    var pop0 := Rank(pop, Total);
    var pop1 := Rank(pop, Distance);
    var pop2 := Rank(pop, Target);
    parents := TopSlice(pop0, numParents[0]) + TopSlice(pop1, numParents[1]) + TopSlice(pop2, numParents[2]);
    var sumParents := numParents[0] + numParents[1] + numParents[2];
    assert parents == Parents(pop, numParents) && sumParents == Sum(numParents);
    parentSet := BackfillLoop(Dedup(parents), pop1, numParents[1], sumParents);
  }

  /** Every member of a filled parent set comes from the population. */
  lemma ParentSetMembers(pop: seq<Individual>, numParents: seq<nat>)
    requires |numParents| == 3 && ParentSet(pop, numParents).Some?
    ensures forall x :: x in ParentSet(pop, numParents).value ==> x in pop
  {
    var parents := Parents(pop, numParents);
    var start, ranking := Dedup(parents), Rank(pop, Distance);
    var filled := Backfill(start, ranking, numParents[1], Sum(numParents));
    assert ParentSet(pop, numParents) == filled;
    RankMembers(pop, Distance);
    ParentsMembers(pop, numParents);
    BackfillMembers(start, ranking, numParents[1], Sum(numParents));
    forall x | x in filled.value
      ensures x in pop
    {
      if x in start {
        assert x in Elements(parents);
      }
    }
  }

  /** The parents followed by numChildren mutated copies of the one
      weighted parent. */
  method Reproduce(parents: seq<Individual>, weightedParents: seq<Individual>, mutRate: real,
                   numChildren: nat, draws: seq<seq<NodeDraw>>)
    returns (out: seq<Individual>)
    requires |weightedParents| == 1 && weightedParents[0].Valid() && |draws| == numChildren
    requires forall c :: 0 <= c < numChildren ==> DrawsFit(draws[c], weightedParents[0].numNodes)
    ensures |out| == |parents| + numChildren && out[..|parents|] == parents
    ensures var children := out[|parents|..];
      && Distinct(children) && NodesApart(children)
      && (forall c :: 0 <= c < numChildren ==>
            fresh(children[c]) && IsChild(children[c], weightedParents[0], draws[c], mutRate))
      && forall c, p :: 0 <= c < numChildren && 0 <= p < |children[c].nodes| ==> fresh(children[c].nodes[p])
  {
    var children := Breed(weightedParents, mutRate, numChildren, draws);
    out := parents + children;
    assert out[..|parents|] == parents;
    assert out[|parents|..] == children;
  }

  /** numChildren mutated copies of the one weighted parent, each from its
      own draws; random.choice over a one-element list returns its
      element. */
  method Breed(weightedParents: seq<Individual>, mutRate: real, numChildren: nat, draws: seq<seq<NodeDraw>>)
    returns (children: seq<Individual>)
    requires |weightedParents| == 1 && weightedParents[0].Valid() && |draws| == numChildren
    requires forall c :: 0 <= c < numChildren ==> DrawsFit(draws[c], weightedParents[0].numNodes)
    ensures |children| == numChildren && Distinct(children) && NodesApart(children)
    ensures forall c :: 0 <= c < numChildren ==>
      fresh(children[c]) && IsChild(children[c], weightedParents[0], draws[c], mutRate)
    ensures forall c, p :: 0 <= c < numChildren && 0 <= p < |children[c].nodes| ==> fresh(children[c].nodes[p])
  {
    children := [];
    var parent := weightedParents[0];
    for c := 0 to numChildren
      invariant |children| == c && Distinct(children) && NodesApart(children)
      invariant forall i :: 0 <= i < c ==> fresh(children[i])
      invariant forall i, p :: 0 <= i < c && 0 <= p < |children[i].nodes| ==> fresh(children[i].nodes[p])
      invariant forall i :: 0 <= i < c ==> IsChild(children[i], parent, draws[i], mutRate)
    {
      var child := Offspring(children, parent, mutRate, draws[c]);
      children := children + [child];
    }
  }

  /** One more child of parent, a new object whose nodes are new too, so
      that it is none of the children so far and shares no node with them. */
  method Offspring(children: seq<Individual>, parent: Individual, mutRate: real, d: seq<NodeDraw>)
    returns (child: Individual)
    requires parent.Valid() && DrawsFit(d, parent.numNodes) && Distinct(children) && NodesApart(children)
    ensures fresh(child) && IsChild(child, parent, d, mutRate)
    ensures forall p :: 0 <= p < |child.nodes| ==> fresh(child.nodes[p])
    ensures Distinct(children + [child]) && NodesApart(children + [child])
  {
    child := parent.Mutate(mutRate, d);
    NodesApartAppend(children, child);
  }

  /** x is what the constructor makes from draws d: a valid individual of
      numNodes nodes with the created genotype, only the output nodes
      active, and every score zero. */
  ghost predicate IsCreated(x: Individual, d: seq<NodeDraw>, numNodes: nat)
    reads x, x.nodes
  {
    && DrawsFit(d, numNodes)
    && x.Valid() && x.numNodes == numNodes
    && x.Genome() == CreationGenome(d) && x.Actives() == OutputMask(numNodes)
    && x.totalFitness == 0.0 && x.distanceFitness == 0.0 && x.targetFitness == 0.0
    && !x.activeNodesDetermined
  }

  /** popSize new random individuals of numNodes nodes each. */
  method CreatePopulation(popSize: nat, numNodes: nat, draws: seq<seq<NodeDraw>>) returns (pop: seq<Individual>)
    requires NumOutputs <= numNodes && |draws| == popSize
    requires forall i :: 0 <= i < popSize ==> DrawsFit(draws[i], numNodes)
    ensures |pop| == popSize && Distinct(pop) && NodesApart(pop)
    ensures forall i :: 0 <= i < popSize ==> fresh(pop[i]) && IsCreated(pop[i], draws[i], numNodes)
    ensures forall i, p :: 0 <= i < popSize && 0 <= p < |pop[i].nodes| ==> fresh(pop[i].nodes[p])
  {
    pop := [];
    for i := 0 to popSize
      invariant |pop| == i && Distinct(pop) && NodesApart(pop)
      invariant forall k :: 0 <= k < i ==> fresh(pop[k]) && IsCreated(pop[k], draws[k], numNodes)
      invariant forall k, p :: 0 <= k < i && 0 <= p < |pop[k].nodes| ==> fresh(pop[k].nodes[p])
    {
      var x := new Individual(numNodes, draws[i]);
      NodesApartAppend(pop, x);
      pop := pop + [x];
    }
  }
}
