/** The genotype as mutable objects: a Node per graph vertex and an
    Individual owning a fixed-length list of distinct nodes, with the
    construction, active-node resolution, evaluation and mutation methods
    that update their fields in place. */
module Cgp {
  import opened Wrappers
  import opened Operators
  import opened Graph
  import opened Resolver
  import opened Mutation
  import opened Selection

  /** One vertex of the graph. */
  class Node {
    var functionIndex: nat
    var inputIndices: seq<int>
    var inputWeights: seq<real>
    var outputIndex: nat
    var output: Option<real>
    var active: bool

    /** A blank node; the function and output indices start unset (written
        here as 0) and are assigned by the creator. */
    constructor ()
      ensures functionIndex == 0 && inputIndices == [] && inputWeights == [] && outputIndex == 0
      ensures output == None && !active
    {
      functionIndex := 0;
      inputIndices := [];
      inputWeights := [];
      outputIndex := 0;
      output := None;
      active := false;
    }

    /** A field-by-field copy, as a deep copy makes it. */
    constructor Copy(n: Node)
      ensures functionIndex == n.functionIndex && inputIndices == n.inputIndices
      ensures inputWeights == n.inputWeights && outputIndex == n.outputIndex
      ensures output == n.output && active == n.active
    {
      functionIndex := n.functionIndex;
      inputIndices := n.inputIndices;
      inputWeights := n.inputWeights;
      outputIndex := n.outputIndex;
      output := n.output;
      active := n.active;
    }

    /** The node's structure as a value. */
    function Structure(): Gene
      reads this
    {
      Gene(functionIndex, inputIndices, inputWeights)
    }

    /** Mutates node p with draw d. The node keeps its operator unless its
        roll is below the rate; then, for each slot of the resulting operator
        from the highest down, it appends either a drawn reference (keeping
        the old weight at that slot when there is one), or a drawn reference
        and weight when the slot index exceeds the length of the list being
        rebuilt, or the old reference and weight. The reference range is
        drawn for position p, the position of the node in its list. */
    method Mutate(p: nat, d: NodeDraw, rate: real)
      requires WellFormedGene(Structure(), p) && DrawFits(d, p)
      modifies this
      ensures Structure() == MutateGene(old(Structure()), d, rate)
      ensures !active && output == old(output) && outputIndex == old(outputIndex)
    {
      ghost var g := Structure();
      if d.roll < rate {
        functionIndex := d.functionIndex;
      }
      var oldInputs := inputIndices;
      var oldWeights := inputWeights;
      var ins: seq<int> := [];
      var ws: seq<real> := [];
      var a := Arity(FunctionTable[functionIndex]);
      var inputIndex := a;
      while inputIndex > 0
        invariant 0 <= inputIndex <= a
        invariant |ins| == |ws| == a - inputIndex
        invariant forall k :: 0 <= k < a - inputIndex ==>
          (ins[k], ws[k]) == SlotChoice(g, d.slots[a - 1 - k], rate, a - 1 - k, k)
      {
        inputIndex := inputIndex - 1;
        var s := d.slots[inputIndex];
        var built := |ins|;
        var ref, weight;
        if s.roll < rate {
          ref := s.ref;
          if inputIndex < |oldWeights| {
            weight := oldWeights[inputIndex];
          } else {
            weight := s.weight;
          }
        } else if inputIndex > built {
          ref, weight := s.ref, s.weight;
        } else {
          ref, weight := oldInputs[inputIndex], oldWeights[inputIndex];
        }
        assert (ref, weight) == SlotChoice(g, s, rate, inputIndex, built);
        ins := ins + [ref];
        ws := ws + [weight];
      }
      inputIndices, inputWeights := ins, ws;
      active := false;
      MutateGeneFromChoices(g, d, rate, ins, ws);
    }
  }

  class Individual {
    const numNodes: nat
    var nodes: seq<Node>
    var totalFitness: real
    var distanceFitness: real
    var targetFitness: real
    var activeNodesDetermined: bool

    /** The structure of every node, in list order. */
    ghost function Genome(): seq<Gene>
      reads this`nodes, nodes
    {
      var ns := nodes;
      seq(|ns|, p requires 0 <= p < |ns| reads ns => ns[p].Structure())
    }

    /** The active flag of every node, in list order. */
    ghost function Actives(): seq<bool>
      reads this`nodes, nodes
    {
      var ns := nodes;
      seq(|ns|, p requires 0 <= p < |ns| reads ns => ns[p].active)
    }

    /** The object invariant: numNodes distinct nodes, each wired only to
        external inputs and earlier nodes, the output nodes active, and a
        resolved active set when the cache flag says so. */
    ghost predicate Valid()
      reads this, nodes
    {
      && |nodes| == numNodes
      && NumOutputs <= numNodes
      && Distinct(nodes)
      && WellFormed(Genome())
      && (forall k :: 0 <= k < |nodes| && numNodes - NumOutputs <= k ==> nodes[k].active)
      && (activeNodesDetermined ==> Closed(Genome(), Actives()))
    }

    /** A new individual with randomly wired nodes and zero fitness. */
    constructor (numNodes: nat, draws: seq<NodeDraw>)
      requires NumOutputs <= numNodes && DrawsFit(draws, numNodes)
      ensures Valid() && this.numNodes == numNodes
      ensures forall p :: 0 <= p < |nodes| ==> fresh(nodes[p])
      ensures Genome() == CreationGenome(draws)
      ensures Actives() == OutputMask(numNodes)
      ensures forall p :: 0 <= p < |nodes| ==> nodes[p].outputIndex == p && nodes[p].output == None
      ensures totalFitness == 0.0 && distanceFitness == 0.0 && targetFitness == 0.0
      ensures !activeNodesDetermined
    {
      this.numNodes := numNodes;
      nodes := [];
      totalFitness := 0.0;
      distanceFitness := 0.0;
      targetFitness := 0.0;
      activeNodesDetermined := false;
      new;
      CreateNodes(draws);
    }

    /** A deep copy: a fresh node object per node of source, with every
        field of the individual and of each node carried over. */
    constructor Copy(source: Individual)
      requires source.Valid()
      ensures Valid() && numNodes == source.numNodes
      ensures forall p :: 0 <= p < |nodes| ==> fresh(nodes[p])
      ensures Genome() == source.Genome() && Actives() == source.Actives()
      ensures forall p :: 0 <= p < |nodes| ==>
        nodes[p].output == source.nodes[p].output && nodes[p].outputIndex == source.nodes[p].outputIndex
      ensures totalFitness == source.totalFitness && distanceFitness == source.distanceFitness
      ensures targetFitness == source.targetFitness && activeNodesDetermined == source.activeNodesDetermined
    {
      var copies := CopyNodes(source.nodes);
      numNodes := source.numNodes;
      nodes := copies;
      totalFitness := source.totalFitness;
      distanceFitness := source.distanceFitness;
      targetFitness := source.targetFitness;
      activeNodesDetermined := source.activeNodesDetermined;
      new;
      assert Genome() == source.Genome() by {
        assert forall p :: 0 <= p < |nodes| ==> Genome()[p] == source.Genome()[p];
      }
      assert Actives() == source.Actives() by {
        assert forall p :: 0 <= p < |nodes| ==> Actives()[p] == source.Actives()[p];
      }
      assert forall k :: 0 <= k < |nodes| && numNodes - NumOutputs <= k ==> nodes[k].active by {
        assert forall k :: 0 <= k < |nodes| ==> nodes[k].active == source.nodes[k].active;
      }
    }

    /** A fresh, distinct node object per node of src, field for field. */
    static method CopyNodes(src: seq<Node>) returns (copies: seq<Node>)
      ensures |copies| == |src|
      ensures forall p :: 0 <= p < |copies| ==> fresh(copies[p])
      ensures forall p, q :: 0 <= p < q < |copies| ==> copies[p] != copies[q]
      ensures forall p :: 0 <= p < |copies| ==>
        && copies[p].Structure() == src[p].Structure() && copies[p].active == src[p].active
        && copies[p].output == src[p].output && copies[p].outputIndex == src[p].outputIndex
    {
      copies := [];
      var i := 0;
      while i < |src|
        invariant 0 <= i <= |src| && |copies| == i
        invariant forall p :: 0 <= p < i ==> fresh(copies[p])
        invariant forall p, q :: 0 <= p < q < i ==> copies[p] != copies[q]
        invariant forall p :: 0 <= p < i ==>
          && copies[p].Structure() == src[p].Structure() && copies[p].active == src[p].active
          && copies[p].output == src[p].output && copies[p].outputIndex == src[p].outputIndex
      {
        var n := new Node.Copy(src[i]);
        copies := copies + [n];
        i := i + 1;
      }
    }

    /** Appends numNodes nodes, each with a drawn operator and, for each of
        its slots, a drawn reference in [-NumInputs, p-1] and a drawn
        weight; then marks the last NumOutputs nodes active. */
    method CreateNodes(draws: seq<NodeDraw>)
      requires nodes == [] && NumOutputs <= numNodes && DrawsFit(draws, numNodes)
      requires !activeNodesDetermined
      modifies this
      ensures Valid()
      ensures forall p :: 0 <= p < |nodes| ==> fresh(nodes[p])
      ensures Genome() == CreationGenome(draws)
      ensures Actives() == OutputMask(numNodes)
      ensures forall p :: 0 <= p < |nodes| ==> nodes[p].outputIndex == p && nodes[p].output == None
      ensures totalFitness == old(totalFitness) && distanceFitness == old(distanceFitness)
      ensures targetFitness == old(targetFitness) && !activeNodesDetermined
    {
      var nodeIndex := 0;
      while nodeIndex < numNodes
        invariant 0 <= nodeIndex <= numNodes && |nodes| == nodeIndex
        invariant forall p :: 0 <= p < nodeIndex ==> fresh(nodes[p])
        invariant forall i, j :: 0 <= i < j < nodeIndex ==> nodes[i] != nodes[j]
        invariant forall p :: 0 <= p < nodeIndex ==>
          && nodes[p].Structure() == InitialGene(draws[p])
          && nodes[p].outputIndex == p && nodes[p].output == None && !nodes[p].active
        invariant totalFitness == old(totalFitness) && distanceFitness == old(distanceFitness)
        invariant targetFitness == old(targetFitness) && !activeNodesDetermined
      {
        var node := BuildNode(nodeIndex, draws[nodeIndex]);
        nodes := nodes + [node];
        nodeIndex := nodeIndex + 1;
      }
      CreationWellFormed(draws, numNodes);
      assert Genome() == CreationGenome(draws);
      MarkOutputsActive();
    }

    /** A new node at position nodeIndex with the drawn operator and, for
        each of its slots in order, the drawn reference and weight. */
    static method BuildNode(nodeIndex: nat, d: NodeDraw) returns (node: Node)
      requires d.functionIndex < |FunctionTable| && |d.slots| == MaxArity
      ensures fresh(node) && node.Structure() == InitialGene(d)
      ensures node.outputIndex == nodeIndex && node.output == None && !node.active
    {
      node := new Node();
      node.outputIndex := nodeIndex;
      node.functionIndex := d.functionIndex;
      var arity := Arity(FunctionTable[node.functionIndex]);
      var y := 0;
      while y < arity
        modifies node
        invariant 0 <= y <= arity
        invariant node.functionIndex == d.functionIndex && node.outputIndex == nodeIndex
        invariant node.output == None && !node.active
        invariant node.inputIndices == seq(y, k requires 0 <= k < y => d.slots[k].ref)
        invariant node.inputWeights == seq(y, k requires 0 <= k < y => d.slots[k].weight)
      {
        node.inputIndices := node.inputIndices + [d.slots[y].ref];
        node.inputWeights := node.inputWeights + [d.slots[y].weight];
        y := y + 1;
      }
    }

    /** Sets the last NumOutputs nodes active, all of them inactive before;
        nothing else changes. */
    method MarkOutputsActive()
      requires |nodes| == numNodes && NumOutputs <= numNodes && Distinct(nodes)
      requires forall p :: 0 <= p < |nodes| ==> !nodes[p].active
      modifies nodes
      ensures Actives() == OutputMask(numNodes) && Genome() == old(Genome())
      ensures forall p :: 0 <= p < |nodes| ==> (nodes[p].active <==> numNodes - NumOutputs <= p)
      ensures forall p :: 0 <= p < |nodes| ==>
        && nodes[p].Structure() == old(nodes[p].Structure())
        && nodes[p].output == old(nodes[p].output) && nodes[p].outputIndex == old(nodes[p].outputIndex)
    {
      for x := 1 to NumOutputs + 1
        invariant forall p :: 0 <= p < |nodes| ==> (nodes[p].active <==> numNodes - x < p)
        invariant forall p :: 0 <= p < |nodes| ==>
          && nodes[p].Structure() == old(nodes[p].Structure())
          && nodes[p].output == old(nodes[p].output) && nodes[p].outputIndex == old(nodes[p].outputIndex)
      {
        nodes[numNodes - x].active := true;
        assert forall p :: 0 <= p < |nodes| && p != numNodes - x ==> nodes[p] != nodes[numNodes - x];
      }
      assert Actives() == OutputMask(numNodes) by {
        assert forall p :: 0 <= p < |nodes| ==> Actives()[p] == OutputMask(numNodes)[p];
      }
      assert Genome() == old(Genome()) by {
        assert forall p :: 0 <= p < |nodes| ==> Genome()[p] == old(Genome())[p];
      }
    }

    /** One reverse pass over the nodes: an active node marks every node it
        references as active. Only active flags change. */
    method DetermineActiveNodes()
      requires Valid()
      modifies nodes
      ensures Valid()
      ensures Genome() == old(Genome())
      ensures Actives() == Resolve(old(Genome()), old(Actives()))
      ensures forall p :: 0 <= p < |nodes| ==> nodes[p].output == old(nodes[p].output)
      ensures forall p :: 0 <= p < |nodes| ==> nodes[p].outputIndex == old(nodes[p].outputIndex)
    {
      ghost var genes := Genome();
      ghost var start := Actives();
      ReversePass(genes, start);
      ghost var res := Resolve(genes, start);
      ResolveKeepsFlags(genes, start);
      assert Actives() == res by {
        assert forall p :: 0 <= p < |nodes| ==> Actives()[p] == res[p];
      }
      assert Genome() == genes by {
        assert forall p :: 0 <= p < |nodes| ==> Genome()[p] == genes[p];
      }
      assert Valid() by {
        if activeNodesDetermined {
          ResolveDownFixesClosed(genes, start, |start|);
        }
      }
    }

    /** The loop of the reverse pass, from the last node down to the first,
        stated on the flags of the nodes. */
    method ReversePass(ghost genes: seq<Gene>, ghost start: seq<bool>)
      requires |genes| == |start| == |nodes| && Distinct(nodes) && WellFormed(genes)
      requires forall p :: 0 <= p < |nodes| ==> nodes[p].Structure() == genes[p] && nodes[p].active == start[p]
      modifies nodes
      ensures |Resolve(genes, start)| == |nodes|
      ensures forall p :: 0 <= p < |nodes| ==> nodes[p].Structure() == genes[p]
      ensures forall p :: 0 <= p < |nodes| ==> nodes[p].active == Resolve(genes, start)[p]
      ensures forall p :: 0 <= p < |nodes| ==>
        nodes[p].output == old(nodes[p].output) && nodes[p].outputIndex == old(nodes[p].outputIndex)
    {
      ghost var cur := start;
      var activeNodes := 0;
      var j := |nodes|;
      while j > 0
        invariant 0 <= j <= |nodes| && |cur| == |nodes|
        invariant forall p :: 0 <= p < |nodes| ==> nodes[p].Structure() == genes[p] && nodes[p].active == cur[p]
        invariant forall p :: 0 <= p < |nodes| ==>
          nodes[p].output == old(nodes[p].output) && nodes[p].outputIndex == old(nodes[p].outputIndex)
        invariant ResolveDown(genes, cur, j) == Resolve(genes, start)
      {
        j := j - 1;
        var node := nodes[j];
        ResolveDownStep(genes, cur, j);
        if node.active {
          activeNodes := activeNodes + 1;
          ActivateInputsOf(j, genes, cur);
          cur := Mark(cur, genes[j].inputs);
        }
      }
    }

    /** The inner loop of the reverse pass: every node that node j
        references is set active; nothing else changes. */
    method ActivateInputsOf(j: nat, ghost genes: seq<Gene>, ghost cur: seq<bool>)
      requires j < |nodes| && |genes| == |nodes| == |cur| && Distinct(nodes) && WellFormed(genes)
      requires forall p :: 0 <= p < |nodes| ==> nodes[p].Structure() == genes[p]
      requires forall p :: 0 <= p < |nodes| ==> nodes[p].active == cur[p]
      modifies nodes
      ensures forall p :: 0 <= p < |nodes| ==> nodes[p].Structure() == genes[p]
      ensures forall p :: 0 <= p < |nodes| ==> nodes[p].output == old(nodes[p].output)
      ensures forall p :: 0 <= p < |nodes| ==> nodes[p].outputIndex == old(nodes[p].outputIndex)
      ensures forall p :: 0 <= p < |nodes| ==> nodes[p].active == Mark(cur, genes[j].inputs)[p]
    {
      var node := nodes[j];
      assert WellFormedGene(genes[j], j);
      ghost var marked := cur;
      var i := 0;
      while i < |node.inputIndices|
        invariant 0 <= i <= |node.inputIndices| && |marked| == |nodes|
        invariant forall p :: 0 <= p < |nodes| ==> nodes[p].Structure() == genes[p]
        invariant forall p :: 0 <= p < |nodes| ==> nodes[p].output == old(nodes[p].output)
        invariant forall p :: 0 <= p < |nodes| ==> nodes[p].outputIndex == old(nodes[p].outputIndex)
        invariant forall p :: 0 <= p < |nodes| ==> nodes[p].active == marked[p]
        invariant marked == Mark(cur, node.inputIndices[..i])
      {
        var r := node.inputIndices[i];
        MarkStep(cur, node.inputIndices, i);
        if r >= 0 {
          assert ValidRef(genes[j].inputs[i], j);
          nodes[r].active := true;
          marked := marked[r := true];
          assert forall p :: 0 <= p < |nodes| && p != r ==> nodes[p] != nodes[r];
        }
        i := i + 1;
      }
      assert node.inputIndices[..i] == genes[j].inputs;
    }

    /** Evaluates the graph on the external inputs args: resolves the active
        nodes first if that has not been done, then computes the output of
        every active node in list order and returns the outputs of the last
        and the second-to-last node. */
    method Eval(args: seq<real>) returns (result: (real, real))
      requires Valid() && |args| >= NumInputs
      modifies this, nodes
      ensures Valid() && nodes == old(nodes) && activeNodesDetermined
      ensures Genome() == old(Genome())
      ensures Actives() == if old(activeNodesDetermined) then old(Actives()) else Resolve(old(Genome()), old(Actives()))
      ensures forall p :: 0 <= p < |nodes| && nodes[p].active ==> nodes[p].output == Some(Value(Genome(), args, p))
      ensures forall p :: 0 <= p < |nodes| && !nodes[p].active ==> nodes[p].output == old(nodes[p].output)
      ensures forall p :: 0 <= p < |nodes| ==> nodes[p].outputIndex == old(nodes[p].outputIndex)
      ensures result == (Value(Genome(), args, |nodes| - 1), Value(Genome(), args, |nodes| - 2))
      ensures totalFitness == old(totalFitness) && distanceFitness == old(distanceFitness)
      ensures targetFitness == old(targetFitness)
    {
      ResolveIfNeeded();
      ComputeOutputs(args);
      result := (nodes[|nodes| - 1].output.value, nodes[|nodes| - 2].output.value);
    }

    /** Runs the reverse pass unless the cached flag says the active set is
        already resolved, and sets the flag. */
    method ResolveIfNeeded()
      requires Valid()
      modifies this, nodes
      ensures Valid() && nodes == old(nodes) && activeNodesDetermined
      ensures Genome() == old(Genome())
      ensures Actives() == if old(activeNodesDetermined) then old(Actives()) else Resolve(old(Genome()), old(Actives()))
      ensures forall p :: 0 <= p < |nodes| ==> nodes[p].output == old(nodes[p].output)
      ensures forall p :: 0 <= p < |nodes| ==> nodes[p].outputIndex == old(nodes[p].outputIndex)
      ensures totalFitness == old(totalFitness) && distanceFitness == old(distanceFitness)
      ensures targetFitness == old(targetFitness)
    {
      if !activeNodesDetermined {
        DetermineActiveNodes();
        ResolveClosed(old(Genome()), old(Actives()));
        activeNodesDetermined := true;
      }
    }

    /** The forward pass of evaluation on a resolved individual: every
        active node gets the value of the graph at that node; only outputs
        of active nodes change. */
    method ComputeOutputs(args: seq<real>)
      requires Valid() && activeNodesDetermined && |args| >= NumInputs
      modifies nodes
      ensures Valid() && Genome() == old(Genome()) && Actives() == old(Actives())
      ensures forall q :: 0 <= q < |nodes| && nodes[q].active ==> nodes[q].output == Some(Value(Genome(), args, q))
      ensures forall q :: 0 <= q < |nodes| && !nodes[q].active ==> nodes[q].output == old(nodes[q].output)
      ensures forall q :: 0 <= q < |nodes| ==> nodes[q].outputIndex == old(nodes[q].outputIndex)
    {
      ghost var genes := Genome();
      ghost var acts := Actives();
      ForwardPass(args, genes, acts);
      assert Genome() == genes by {
        assert forall q :: 0 <= q < |nodes| ==> Genome()[q] == genes[q];
      }
      assert Actives() == acts by {
        assert forall q :: 0 <= q < |nodes| ==> Actives()[q] == acts[q];
      }
    }

    /** The loop of the forward pass: every active node, in list order,
        applies its operator to its gathered arguments. */
    method ForwardPass(args: seq<real>, ghost genes: seq<Gene>, ghost acts: seq<bool>)
      requires |genes| == |acts| == |nodes| && Distinct(nodes) && |args| >= NumInputs
      requires WellFormed(genes) && Closed(genes, acts)
      requires forall q :: 0 <= q < |nodes| ==> nodes[q].Structure() == genes[q] && nodes[q].active == acts[q]
      modifies nodes
      ensures forall q :: 0 <= q < |nodes| ==> nodes[q].Structure() == genes[q] && nodes[q].active == acts[q]
      ensures forall q :: 0 <= q < |nodes| && nodes[q].active ==> nodes[q].output == Some(Value(genes, args, q))
      ensures forall q :: 0 <= q < |nodes| && !nodes[q].active ==> nodes[q].output == old(nodes[q].output)
      ensures forall q :: 0 <= q < |nodes| ==> nodes[q].outputIndex == old(nodes[q].outputIndex)
    {
      var p := 0;
      while p < |nodes|
        invariant 0 <= p <= |nodes|
        invariant forall q :: 0 <= q < |nodes| ==> nodes[q].Structure() == genes[q] && nodes[q].active == acts[q]
        invariant forall q :: 0 <= q < p && nodes[q].active ==> nodes[q].output == Some(Value(genes, args, q))
        invariant forall q :: 0 <= q < |nodes| && (p <= q || !nodes[q].active) ==> nodes[q].output == old(nodes[q].output)
        invariant forall q :: 0 <= q < |nodes| ==> nodes[q].outputIndex == old(nodes[q].outputIndex)
      {
        if nodes[p].active {
          ComputeNode(p, args, genes, acts);
          assert forall q :: 0 <= q < |nodes| && q != p ==> nodes[q] != nodes[p];
        }
        p := p + 1;
      }
    }

    /** Active node p applies its operator to its gathered arguments and
        stores the result, which is the value of the graph at p. */
    method ComputeNode(p: nat, args: seq<real>, ghost genes: seq<Gene>, ghost acts: seq<bool>)
      requires p < |nodes| == |genes| == |acts| && |args| >= NumInputs && WellFormed(genes)
      requires Closed(genes, acts) && acts[p]
      requires forall q :: 0 <= q < |nodes| ==> nodes[q].Structure() == genes[q]
      requires forall q :: 0 <= q < p && acts[q] ==> nodes[q].output == Some(Value(genes, args, q))
      modifies nodes[p]
      ensures nodes[p].output == Some(Value(genes, args, p))
      ensures nodes[p].Structure() == old(nodes[p].Structure()) && nodes[p].active == old(nodes[p].active)
      ensures nodes[p].outputIndex == old(nodes[p].outputIndex)
    {
      var node := nodes[p];
      var inputs := GatherInputs(p, args, genes, acts);
      ValueFromSlots(genes, args, p, inputs);
      node.output := Some(Apply(FunctionTable[node.functionIndex], inputs));
    }

    /** The arguments of active node p, one per input reference in slot
        order: the cached output of a referenced node, or an external input
        times the weight at the first slot holding that reference. */
    method GatherInputs(p: nat, args: seq<real>, ghost genes: seq<Gene>, ghost acts: seq<bool>) returns (inputs: seq<real>)
      requires p < |nodes| == |genes| == |acts| && |args| >= NumInputs && WellFormed(genes)
      requires Closed(genes, acts) && acts[p]
      requires forall q :: 0 <= q < |nodes| ==> nodes[q].Structure() == genes[q]
      requires forall q :: 0 <= q < p && acts[q] ==> nodes[q].output == Some(Value(genes, args, q))
      ensures |inputs| == |genes[p].inputs|
      ensures forall t :: 0 <= t < |inputs| ==> inputs[t] == SlotValue(genes, args, p, t)
    {
      var node := nodes[p];
      assert WellFormedGene(genes[p], p);
      inputs := [];
      var s := 0;
      while s < |node.inputIndices|
        invariant 0 <= s <= |node.inputIndices|
        invariant |inputs| == s
        invariant forall t :: 0 <= t < s ==> inputs[t] == SlotValue(genes, args, p, t)
      {
        var inputIndex := node.inputIndices[s];
        assert ValidRef(inputIndex, p);
        if inputIndex >= 0 {
          // an active node's references are active and earlier, so their
          // outputs were computed earlier in the same pass
          assert acts[inputIndex];
          inputs := inputs + [nodes[inputIndex].output.value];
        } else {
          inputs := inputs + [args[-inputIndex - 1] * node.inputWeights[FirstIndex(node.inputIndices, inputIndex)]];
        }
        s := s + 1;
      }
    }

    /** A mutated child: a deep copy in which every node may get a new
        operator and has its input slots rebuilt from the highest slot down,
        all nodes inactive except the outputs, the total fitness reset and
        the active set marked stale. The parent is not changed. */
    method Mutate(mutRate: real, draws: seq<NodeDraw>) returns (child: Individual)
      requires Valid() && DrawsFit(draws, numNodes)
      ensures fresh(child) && child.Valid() && child.numNodes == numNodes
      ensures forall p :: 0 <= p < |child.nodes| ==> fresh(child.nodes[p])
      ensures child.Genome() == MutateGenome(Genome(), draws, mutRate)
      ensures child.Actives() == OutputMask(numNodes)
      ensures forall p :: 0 <= p < |child.nodes| ==>
        child.nodes[p].output == nodes[p].output && child.nodes[p].outputIndex == nodes[p].outputIndex
      ensures child.totalFitness == 0.0 && !child.activeNodesDetermined
      ensures child.distanceFitness == distanceFitness && child.targetFitness == targetFitness
    {
      child := new Individual.Copy(this);
      child.MutateCopy(mutRate, draws);
    }

    /** The part of a mutation that rewrites the copy: every node mutated
        and left inactive, then the outputs marked active, the total fitness
        reset and the active set marked stale. */
    method MutateCopy(mutRate: real, draws: seq<NodeDraw>)
      requires Valid() && DrawsFit(draws, numNodes)
      modifies this, nodes
      ensures Valid() && nodes == old(nodes)
      ensures Genome() == MutateGenome(old(Genome()), draws, mutRate)
      ensures Actives() == OutputMask(numNodes)
      ensures forall p :: 0 <= p < |nodes| ==>
        nodes[p].output == old(nodes[p].output) && nodes[p].outputIndex == old(nodes[p].outputIndex)
      ensures totalFitness == 0.0 && !activeNodesDetermined
      ensures distanceFitness == old(distanceFitness) && targetFitness == old(targetFitness)
    {
      MutateNodes(mutRate, draws);
      MarkOutputsActive();
      totalFitness := 0.0;
      activeNodesDetermined := false;
    }

    /** Mutates every node in list order and leaves it inactive. */
    method MutateNodes(rate: real, draws: seq<NodeDraw>)
      requires |nodes| == numNodes && Distinct(nodes) && WellFormed(Genome()) && DrawsFit(draws, |nodes|)
      modifies nodes
      ensures Genome() == MutateGenome(old(Genome()), draws, rate) && WellFormed(Genome())
      ensures forall p :: 0 <= p < |nodes| ==>
        && !nodes[p].active
        && nodes[p].output == old(nodes[p].output) && nodes[p].outputIndex == old(nodes[p].outputIndex)
    {
      ghost var genes := Genome();
      var p := 0;
      while p < |nodes|
        invariant 0 <= p <= |nodes|
        invariant forall q :: 0 <= q < p ==> nodes[q].Structure() == MutateGene(genes[q], draws[q], rate) && !nodes[q].active
        invariant forall q :: p <= q < |nodes| ==> nodes[q].Structure() == genes[q]
        invariant forall q :: 0 <= q < |nodes| ==>
          nodes[q].output == old(nodes[q].output) && nodes[q].outputIndex == old(nodes[q].outputIndex)
      {
        assert WellFormedGene(genes[p], p);
        nodes[p].Mutate(p, draws[p], rate);
        assert forall q :: 0 <= q < |nodes| && q != p ==> nodes[q] != nodes[p];
        p := p + 1;
      }
      assert Genome() == MutateGenome(genes, draws, rate) by {
        assert forall q :: 0 <= q < |nodes| ==> Genome()[q] == MutateGenome(genes, draws, rate)[q];
      }
      MutatePreservesWellFormed(genes, draws, rate);
    }
  }
}
