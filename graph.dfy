/** The genotype as a value: per-node structure (operator, input references,
    input weights), the feed-forward well-formedness rule, the random draws a
    genotype is built from, and the meaning of the graph as a function of the
    external inputs. */
module Graph {
  import opened Operators

  /** Fixed configuration of every individual. */
  const NumInputs: nat := 5
  const NumOutputs: nat := 2
  const WeightMin: real := -1.0
  const WeightMax: real := 1.0

  /** The structure of one node: index into the function table, input
      references and one weight per reference. A reference r < 0 names the
      external input -r-1; a reference r >= 0 names the output of node r. */
  datatype Gene = Gene(functionIndex: nat, inputs: seq<int>, weights: seq<real>)

  /** A reference a node at position p may hold: an external input, or an
      earlier node. */
  predicate ValidRef(r: int, p: nat)
  {
    -(NumInputs as int) <= r <= p - 1
  }

  predicate InWeightRange(w: real)
  {
    WeightMin <= w <= WeightMax
  }

  predicate WellFormedGene(g: Gene, p: nat)
  {
    && g.functionIndex < |FunctionTable|
    && |g.inputs| == Arity(FunctionTable[g.functionIndex])
    && |g.weights| == |g.inputs|
    && (forall i :: 0 <= i < |g.inputs| ==> ValidRef(g.inputs[i], p))
    && (forall i :: 0 <= i < |g.weights| ==> InWeightRange(g.weights[i]))
  }

  /** Every node is well formed at its own position, so every node reference
      points strictly backwards and the graph is acyclic. */
  predicate WellFormed(genes: seq<Gene>)
  {
    forall p :: 0 <= p < |genes| ==> WellFormedGene(genes[p], p)
  }

  function OpOf(g: Gene): Op
    requires g.functionIndex < |FunctionTable|
  {
    FunctionTable[g.functionIndex]
  }

  // ---------------------------------------------------------------------
  // Random draws

  /** The draws for one input slot: the roll compared with the mutation rate,
      a reference and a weight. */
  datatype SlotDraw = SlotDraw(roll: real, ref: int, weight: real)

  /** The draws for one node: the roll compared with the mutation rate, a
      function index and one SlotDraw per possible slot. */
  datatype NodeDraw = NodeDraw(roll: real, functionIndex: nat, slots: seq<SlotDraw>)

  /** A value of random.random(). */
  predicate IsRoll(x: real)
  {
    0.0 <= x < 1.0
  }

  /** A draw as the source's random calls could produce for position p:
      random.randint over the table and over [-NumInputs, p-1],
      random.uniform over the weight range. */
  predicate DrawFits(d: NodeDraw, p: nat)
  {
    && IsRoll(d.roll)
    && d.functionIndex < |FunctionTable|
    && |d.slots| == MaxArity
    && forall i :: 0 <= i < |d.slots| ==>
         IsRoll(d.slots[i].roll) && ValidRef(d.slots[i].ref, p) && InWeightRange(d.slots[i].weight)
  }

  predicate DrawsFit(ds: seq<NodeDraw>, n: nat)
  {
    |ds| == n && forall p :: 0 <= p < n ==> DrawFits(ds[p], p)
  }

  // ---------------------------------------------------------------------
  // Construction

  /** The node built from a draw: the drawn operator, and the first
      arity-many drawn references and weights in slot order. */
  function InitialGene(d: NodeDraw): Gene
    requires d.functionIndex < |FunctionTable| && |d.slots| == MaxArity
  {
    var a := Arity(FunctionTable[d.functionIndex]);
    Gene(d.functionIndex,
         seq(a, y requires 0 <= y < a => d.slots[y].ref),
         seq(a, y requires 0 <= y < a => d.slots[y].weight))
  }

  function CreationGenome(ds: seq<NodeDraw>): seq<Gene>
    requires forall p :: 0 <= p < |ds| ==> ds[p].functionIndex < |FunctionTable| && |ds[p].slots| == MaxArity
  {
    seq(|ds|, p requires 0 <= p < |ds| => InitialGene(ds[p]))
  }

  /** A freshly created genotype is well formed: lengths match the arity,
      every reference lies in [-NumInputs, p-1], every weight in range. */
  lemma CreationWellFormed(ds: seq<NodeDraw>, n: nat)
    requires DrawsFit(ds, n)
    ensures |CreationGenome(ds)| == n
    ensures WellFormed(CreationGenome(ds))
  {
    var genes := CreationGenome(ds);
    forall p | 0 <= p < n
      ensures WellFormedGene(genes[p], p)
    {
      var d := ds[p];
      var g := genes[p];
      assert g == InitialGene(d);
      forall i | 0 <= i < |g.inputs|
        ensures ValidRef(g.inputs[i], p) && InWeightRange(g.weights[i])
      {
        assert g.inputs[i] == d.slots[i].ref && g.weights[i] == d.slots[i].weight;
      }
    }
  }

  /** The first node (position 0) of a well-formed genotype reads external
      inputs only. */
  lemma FirstNodeReadsInputsOnly(genes: seq<Gene>, i: nat)
    requires WellFormed(genes) && |genes| > 0 && i < |genes[0].inputs|
    ensures genes[0].inputs[i] < 0
  {
    assert WellFormedGene(genes[0], 0);
  }

  // ---------------------------------------------------------------------
  // Meaning of the graph

  /** Position of the first occurrence of x in s (Python's list.index). */
  function FirstIndex<T(==)>(s: seq<T>, x: T): (k: nat)
    requires x in s
    ensures k < |s| && s[k] == x
    ensures forall j :: 0 <= j < k ==> s[j] != x
  {
    if s[0] == x then 0 else 1 + FirstIndex(s[1..], x)
  }

  /** The contribution of external reference r < 0 to a node: input -r-1
      times the weight at the first slot that holds r. */
  function ExternalInput(g: Gene, args: seq<real>, r: int): real
    requires r < 0 && -r - 1 < |args| && r in g.inputs && |g.weights| == |g.inputs|
  {
    args[-r - 1] * g.weights[FirstIndex(g.inputs, r)]
  }

  /** The value arriving at slot i of node p. */
  function SlotValue(genes: seq<Gene>, args: seq<real>, p: nat, i: nat): real
    requires WellFormed(genes) && p < |genes| && i < |genes[p].inputs| && |args| >= NumInputs
    decreases p, 0
  {
    var r := genes[p].inputs[i];
    if r >= 0 then Value(genes, args, r) else ExternalInput(genes[p], args, r)
  }

  /** The output of node p, computed from all of its inputs recursively,
      independently of which nodes are marked active. */
  function Value(genes: seq<Gene>, args: seq<real>, p: nat): real
    requires WellFormed(genes) && p < |genes| && |args| >= NumInputs
    decreases p, 1
  {
    var g := genes[p];
    Apply(OpOf(g), seq(|g.inputs|, i requires 0 <= i < |g.inputs| => SlotValue(genes, args, p, i)))
  }

  /** A node's value is its operator applied to its slot values, whichever
      way those values were collected. */
  lemma ValueFromSlots(genes: seq<Gene>, args: seq<real>, p: nat, inputs: seq<real>)
    requires WellFormed(genes) && p < |genes| && |args| >= NumInputs
    requires |inputs| == |genes[p].inputs|
    requires forall t :: 0 <= t < |inputs| ==> inputs[t] == SlotValue(genes, args, p, t)
    ensures Value(genes, args, p) == Apply(OpOf(genes[p]), inputs)
  {
    var g := genes[p];
    assert inputs == seq(|g.inputs|, i requires 0 <= i < |g.inputs| => SlotValue(genes, args, p, i));
  }
}
