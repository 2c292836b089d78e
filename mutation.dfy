/** Mutation of one node and of a whole genotype, as functions of the parent
    structure, the random draws and the mutation rate. Input slots are
    visited from the highest index of the (possibly new) arity down to 0 and
    appended, so the rebuilt lists hold the slots in reverse order; the test
    for a slot missing from the old wiring compares the slot index with the
    length of the list being rebuilt. */
module Mutation {
  import opened Operators
  import opened Graph

  /** The (reference, weight) pair appended for slot i when `built` pairs
      have already been appended to the rebuilt lists. */
  function SlotChoice(g: Gene, s: SlotDraw, rate: real, i: nat, built: nat): (int, real)
    requires 1 <= |g.inputs| == |g.weights| && i + built <= 1
  {
    if s.roll < rate then
      // a new reference; the old weight at this slot if there is one
      (s.ref, if i < |g.weights| then g.weights[i] else s.weight)
    else if i > built then
      // compared with the rebuilt list, not the old one
      (s.ref, s.weight)
    else
      (g.inputs[i], g.weights[i])
  }

  /** The operator a node has after mutation. */
  function MutatedFunctionIndex(g: Gene, d: NodeDraw, rate: real): nat
  {
    if d.roll < rate then d.functionIndex else g.functionIndex
  }

  /** A node after mutation: entry k of the rebuilt lists is the choice for
      slot a-1-k, where a is the arity of the (possibly new) operator. */
  function MutateGene(g: Gene, d: NodeDraw, rate: real): Gene
    requires g.functionIndex < |FunctionTable| && 1 <= |g.inputs| == |g.weights|
    requires d.functionIndex < |FunctionTable| && |d.slots| == MaxArity
  {
    var f := MutatedFunctionIndex(g, d, rate);
    var a := Arity(FunctionTable[f]);
    var picks := seq(a, k requires 0 <= k < a => SlotChoice(g, d.slots[a - 1 - k], rate, a - 1 - k, k));
    Gene(f, seq(a, k requires 0 <= k < a => picks[k].0), seq(a, k requires 0 <= k < a => picks[k].1))
  }

  /** A node whose lists were built entry by entry from the slot choices,
      entry k from slot a-1-k, is the mutated node. */
  lemma MutateGeneFromChoices(g: Gene, d: NodeDraw, rate: real, ins: seq<int>, ws: seq<real>)
    requires g.functionIndex < |FunctionTable| && 1 <= |g.inputs| == |g.weights|
    requires d.functionIndex < |FunctionTable| && |d.slots| == MaxArity
    requires |ins| == |ws| == Arity(FunctionTable[MutatedFunctionIndex(g, d, rate)])
    requires forall k :: 0 <= k < |ins| ==>
      (ins[k], ws[k]) == SlotChoice(g, d.slots[|ins| - 1 - k], rate, |ins| - 1 - k, k)
    ensures MutateGene(g, d, rate) == Gene(MutatedFunctionIndex(g, d, rate), ins, ws)
  {
  }

  function MutateGenome(genes: seq<Gene>, ds: seq<NodeDraw>, rate: real): seq<Gene>
    requires WellFormed(genes) && DrawsFit(ds, |genes|)
  {
    seq(|genes|, p requires 0 <= p < |genes| => MutateGene(genes[p], ds[p], rate))
  }

  /** A mutated node is well formed at its position: both lists have the
      arity of the new operator, references lie in [-NumInputs, p-1] and
      weights in range. */
  lemma MutateGeneWellFormed(g: Gene, d: NodeDraw, rate: real, p: nat)
    requires WellFormedGene(g, p) && DrawFits(d, p)
    ensures WellFormedGene(MutateGene(g, d, rate), p)
  {
    var r := MutateGene(g, d, rate);
    var a := |r.inputs|;
    forall k | 0 <= k < a
      ensures ValidRef(r.inputs[k], p) && InWeightRange(r.weights[k])
    {
      var i := a - 1 - k;
      assert r.inputs[k] == SlotChoice(g, d.slots[i], rate, i, k).0;
      assert r.weights[k] == SlotChoice(g, d.slots[i], rate, i, k).1;
      if !(d.slots[i].roll < rate) && !(i > k) {
        assert i == 0;
      }
    }
  }

  /** Entry k of a mutated node's lists comes from slot a-1-k: the parent's
      reference there or a fresh one, and the parent's weight there or a
      fresh one (a is the new arity). */
  lemma MutateGeneSlotOrigin(g: Gene, d: NodeDraw, rate: real, p: nat, k: nat)
    requires WellFormedGene(g, p) && DrawFits(d, p)
    requires k < |MutateGene(g, d, rate).inputs|
    ensures var r := MutateGene(g, d, rate);
      var i := |r.inputs| - 1 - k;
      && |r.weights| == |r.inputs|
      && (r.inputs[k] == d.slots[i].ref || (i < |g.inputs| && r.inputs[k] == g.inputs[i]))
      && (r.weights[k] == d.slots[i].weight || (i < |g.weights| && r.weights[k] == g.weights[i]))
  {
    var r := MutateGene(g, d, rate);
    var i := |r.inputs| - 1 - k;
    assert r.inputs[k] == SlotChoice(g, d.slots[i], rate, i, k).0;
    assert r.weights[k] == SlotChoice(g, d.slots[i], rate, i, k).1;
  }

  /** Every weight of a mutated node is the parent node's weight at the
      same slot or the weight drawn for that slot. */
  lemma MutateGeneWeights(g: Gene, d: NodeDraw, rate: real, p: nat)
    requires WellFormedGene(g, p) && DrawFits(d, p)
    ensures var r := MutateGene(g, d, rate);
      forall k :: 0 <= k < |r.weights| ==>
        r.weights[k] in g.weights || r.weights[k] == d.slots[|r.weights| - 1 - k].weight
  {
    var r := MutateGene(g, d, rate);
    forall k | 0 <= k < |r.weights|
      ensures r.weights[k] in g.weights || r.weights[k] == d.slots[|r.weights| - 1 - k].weight
    {
      MutateGeneSlotOrigin(g, d, rate, p, k);
    }
  }

  /** With a mutation rate of zero no roll succeeds: the operator is kept, a
      one-input node is unchanged, and a two-input node gets a fresh
      reference and weight first, followed by its old slot 0. */
  lemma MutateZeroRate(g: Gene, d: NodeDraw, rate: real, p: nat)
    requires WellFormedGene(g, p) && DrawFits(d, p) && rate <= 0.0
    ensures MutateGene(g, d, rate).functionIndex == g.functionIndex
    ensures |g.inputs| == 1 ==> MutateGene(g, d, rate) == g
    ensures |g.inputs| == 2 ==>
      && MutateGene(g, d, rate).inputs == [d.slots[1].ref, g.inputs[0]]
      && MutateGene(g, d, rate).weights == [d.slots[1].weight, g.weights[0]]
  {
    var r := MutateGene(g, d, rate);
    assert !(d.roll < rate);
    assert !(d.slots[0].roll < rate) && !(d.slots[1].roll < rate);
    var a := |r.inputs|;
    assert a == |g.inputs|;
    if a == 1 {
      assert r.inputs[0] == SlotChoice(g, d.slots[0], rate, 0, 0).0 == g.inputs[0];
      assert r.weights[0] == SlotChoice(g, d.slots[0], rate, 0, 0).1 == g.weights[0];
      assert r.inputs == g.inputs;
      assert r.weights == g.weights;
    } else {
      assert r.inputs[0] == SlotChoice(g, d.slots[1], rate, 1, 0).0;
      assert r.inputs[1] == SlotChoice(g, d.slots[0], rate, 0, 1).0;
      assert r.weights[0] == SlotChoice(g, d.slots[1], rate, 1, 0).1;
      assert r.weights[1] == SlotChoice(g, d.slots[0], rate, 0, 1).1;
    }
  }

  /** When every roll succeeds and a two-input node stays two-input, both
      references are fresh and the old weights are kept but swapped, since
      the lists are rebuilt in reverse slot order. */
  lemma MutateAllSlotsTwoInputs(g: Gene, d: NodeDraw, rate: real, p: nat)
    requires WellFormedGene(g, p) && DrawFits(d, p) && rate >= 1.0
    requires |g.inputs| == 2 && Arity(FunctionTable[d.functionIndex]) == 2
    ensures MutateGene(g, d, rate).functionIndex == d.functionIndex
    ensures MutateGene(g, d, rate).inputs == [d.slots[1].ref, d.slots[0].ref]
    ensures MutateGene(g, d, rate).weights == [g.weights[1], g.weights[0]]
  {
    var r := MutateGene(g, d, rate);
    assert |r.inputs| == 2;
    assert r.inputs[0] == SlotChoice(g, d.slots[1], rate, 1, 0).0;
    assert r.inputs[1] == SlotChoice(g, d.slots[0], rate, 0, 1).0;
    assert r.weights[0] == SlotChoice(g, d.slots[1], rate, 1, 0).1;
    assert r.weights[1] == SlotChoice(g, d.slots[0], rate, 0, 1).1;
  }

  /** When a one-input node becomes two-input, the new slot 1 gets a fresh
      reference and a fresh weight in every case. */
  lemma MutateGrowsArity(g: Gene, d: NodeDraw, rate: real, p: nat)
    requires WellFormedGene(g, p) && DrawFits(d, p)
    requires |g.inputs| == 1 && d.roll < rate && Arity(FunctionTable[d.functionIndex]) == 2
    ensures |MutateGene(g, d, rate).inputs| == 2
    ensures MutateGene(g, d, rate).inputs[0] == d.slots[1].ref
    ensures MutateGene(g, d, rate).weights[0] == d.slots[1].weight
  {
    var r := MutateGene(g, d, rate);
    assert |r.inputs| == 2;
    assert r.inputs[0] == SlotChoice(g, d.slots[1], rate, 1, 0).0;
    assert r.weights[0] == SlotChoice(g, d.slots[1], rate, 1, 0).1;
  }

  /** At any rate, a node that ends up with two inputs gets a fresh
      reference first: slot 1 is visited while the rebuilt list is still
      empty, so it takes either the mutation branch or the branch for a slot
      beyond the rebuilt list. */
  lemma MutateTwoInputsFreshFirst(g: Gene, d: NodeDraw, rate: real, p: nat)
    requires WellFormedGene(g, p) && DrawFits(d, p)
    requires |MutateGene(g, d, rate).inputs| == 2
    ensures MutateGene(g, d, rate).inputs[0] == d.slots[1].ref
  {
    var r := MutateGene(g, d, rate);
    assert r.inputs[0] == SlotChoice(g, d.slots[1], rate, 1, 0).0;
  }

  /** At any rate, a one-input node whose operator roll and slot roll both
      fail comes out unchanged. */
  lemma MutateUnrolledOneInput(g: Gene, d: NodeDraw, rate: real, p: nat)
    requires WellFormedGene(g, p) && DrawFits(d, p)
    requires |g.inputs| == 1 && !(d.roll < rate) && !(d.slots[0].roll < rate)
    ensures MutateGene(g, d, rate) == g
  {
    var r := MutateGene(g, d, rate);
    assert |r.inputs| == 1;
    assert r.inputs[0] == SlotChoice(g, d.slots[0], rate, 0, 0).0 == g.inputs[0];
    assert r.weights[0] == SlotChoice(g, d.slots[0], rate, 0, 0).1 == g.weights[0];
    assert r.inputs == g.inputs;
    assert r.weights == g.weights;
  }

  /** Mutation keeps a genotype well formed, hence acyclic. */
  lemma MutatePreservesWellFormed(genes: seq<Gene>, ds: seq<NodeDraw>, rate: real)
    requires WellFormed(genes) && DrawsFit(ds, |genes|)
    ensures |MutateGenome(genes, ds, rate)| == |genes|
    ensures WellFormed(MutateGenome(genes, ds, rate))
  {
    var m := MutateGenome(genes, ds, rate);
    forall p | 0 <= p < |genes|
      ensures WellFormedGene(m[p], p)
    {
      MutateGeneWellFormed(genes[p], ds[p], rate, p);
    }
  }
}
