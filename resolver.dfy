/** Active-node resolution as a function on active-flag sequences: one
    reverse pass over the nodes marks every node referenced by an active
    node. The lemmas state what the pass computes. */
module Resolver {
  import opened Graph

  /** Exactly the last NumOutputs positions (the output nodes) set. */
  function OutputMask(n: nat): seq<bool>
  {
    seq(n, k requires 0 <= k < n => n - NumOutputs <= k)
  }

  /** The flags after setting every flag whose position is among refs
      (negative references name no node and set nothing). */
  function Mark(act: seq<bool>, refs: seq<int>): seq<bool>
  {
    seq(|act|, k requires 0 <= k < |act| => act[k] || k in refs)
  }

  /** Marking one more reference sets at most that one flag. */
  lemma MarkStep(act: seq<bool>, refs: seq<int>, i: nat)
    requires i < |refs|
    ensures refs[..i + 1] == refs[..i] + [refs[i]]
    ensures Mark(act, refs[..i + 1]) ==
      if 0 <= refs[i] < |act| then Mark(act, refs[..i])[refs[i] := true] else Mark(act, refs[..i])
  {
    assert refs[..i + 1] == refs[..i] + [refs[i]];
  }

  /** The reverse pass over positions j-1 down to 0: a node that is active
      when it is visited marks the nodes it references. */
  function ResolveDown(genes: seq<Gene>, act: seq<bool>, j: nat): seq<bool>
    requires |genes| == |act| && j <= |act|
    decreases j
  {
    if j == 0 then act
    else
      var next := if act[j - 1] then Mark(act, genes[j - 1].inputs) else act;
      ResolveDown(genes, next, j - 1)
  }

  /** One step of the pass: visiting node j. */
  lemma ResolveDownStep(genes: seq<Gene>, act: seq<bool>, j: nat)
    requires |genes| == |act| && j < |act|
    ensures |Mark(act, genes[j].inputs)| == |act|
    ensures ResolveDown(genes, act, j + 1)
      == ResolveDown(genes, if act[j] then Mark(act, genes[j].inputs) else act, j)
  {
  }

  /** The complete pass, from the last node to the first. */
  function Resolve(genes: seq<Gene>, act: seq<bool>): seq<bool>
    requires |genes| == |act|
  {
    ResolveDown(genes, act, |act|)
  }

  /** Every node reference of an active node points to an active node. */
  predicate Closed(genes: seq<Gene>, act: seq<bool>)
    requires |genes| == |act|
  {
    forall j, i :: 0 <= j < |act| && act[j] && 0 <= i < |genes[j].inputs| && 0 <= genes[j].inputs[i] ==>
      genes[j].inputs[i] < |act| && act[genes[j].inputs[i]]
  }

  /** The pass keeps the length and never clears a flag. */
  lemma {:induction false} ResolveDownKeeps(genes: seq<Gene>, act: seq<bool>, j: nat)
    requires |genes| == |act| && j <= |act|
    ensures |ResolveDown(genes, act, j)| == |act|
    ensures forall k :: 0 <= k < |act| && act[k] ==> ResolveDown(genes, act, j)[k]
    decreases j
  {
    if j > 0 {
      var next := if act[j - 1] then Mark(act, genes[j - 1].inputs) else act;
      ResolveDownKeeps(genes, next, j - 1);
    }
  }

  /** Positions at or above j are not touched by the pass below j, because
      every node references only earlier positions. */
  lemma {:induction false} ResolveDownAbove(genes: seq<Gene>, act: seq<bool>, j: nat)
    requires WellFormed(genes) && |genes| == |act| && j <= |act|
    ensures |ResolveDown(genes, act, j)| == |act|
    ensures forall k :: j <= k < |act| ==> ResolveDown(genes, act, j)[k] == act[k]
    decreases j
  {
    ResolveDownKeeps(genes, act, j);
    if j > 0 {
      var next := if act[j - 1] then Mark(act, genes[j - 1].inputs) else act;
      assert WellFormedGene(genes[j - 1], j - 1);
      forall k | j - 1 <= k < |act|
        ensures next[k] == act[k]
      {
        if act[j - 1] {
          var g := genes[j - 1];
          assert k !in g.inputs by {
            forall i | 0 <= i < |g.inputs| ensures g.inputs[i] != k {
              assert ValidRef(g.inputs[i], j - 1);
            }
          }
        }
      }
      ResolveDownAbove(genes, next, j - 1);
    }
  }

  /** After the pass below j, every active node below j has all of its node
      references active. */
  lemma {:induction false} ResolveDownClosedBelow(genes: seq<Gene>, act: seq<bool>, j: nat)
    requires WellFormed(genes) && |genes| == |act| && j <= |act|
    ensures |ResolveDown(genes, act, j)| == |act|
    ensures var res := ResolveDown(genes, act, j);
      forall q, i :: 0 <= q < j && res[q] && 0 <= i < |genes[q].inputs| && 0 <= genes[q].inputs[i] ==>
        genes[q].inputs[i] < |act| && res[genes[q].inputs[i]]
    decreases j
  {
    ResolveDownKeeps(genes, act, j);
    if j > 0 {
      var next := if act[j - 1] then Mark(act, genes[j - 1].inputs) else act;
      var res := ResolveDown(genes, act, j);
      assert res == ResolveDown(genes, next, j - 1);
      ResolveDownClosedBelow(genes, next, j - 1);
      ResolveDownAbove(genes, next, j - 1);
      ResolveDownKeeps(genes, next, j - 1);
      var g := genes[j - 1];
      assert WellFormedGene(g, j - 1);
      forall i | 0 <= i < |g.inputs| && 0 <= g.inputs[i] && res[j - 1]
        ensures g.inputs[i] < |act| && res[g.inputs[i]]
      {
        var r := g.inputs[i];
        assert ValidRef(r, j - 1);
        assert res[j - 1] == next[j - 1];
        assert next[r];
      }
    }
  }

  /** Every flag the pass sets belongs to a node referenced by a later node
      that is active when the pass ends. */
  lemma {:induction false} ResolveDownOrigin(genes: seq<Gene>, act: seq<bool>, j: nat, k: nat)
    requires WellFormed(genes) && |genes| == |act| && j <= |act| && k < |act|
    requires |ResolveDown(genes, act, j)| == |act|
    requires ResolveDown(genes, act, j)[k] && !act[k]
    ensures exists q :: k < q < |act| && ResolveDown(genes, act, j)[q] && k in genes[q].inputs
    decreases j
  {
    ResolveDownKeeps(genes, act, j);
    if j == 0 {
      assert false;
    } else {
      var next := if act[j - 1] then Mark(act, genes[j - 1].inputs) else act;
      var res := ResolveDown(genes, act, j);
      assert res == ResolveDown(genes, next, j - 1);
      ResolveDownKeeps(genes, next, j - 1);
      if next[k] {
        ResolveDownAbove(genes, next, j - 1);
        assert act[j - 1] && k in genes[j - 1].inputs;
        assert WellFormedGene(genes[j - 1], j - 1);
        var i := FirstIndex(genes[j - 1].inputs, k);
        assert ValidRef(genes[j - 1].inputs[i], j - 1);
        assert res[j - 1];
      } else {
        ResolveDownOrigin(genes, next, j - 1, k);
      }
    }
  }

  /** Resolution never clears a flag. */
  lemma ResolveKeepsFlags(genes: seq<Gene>, act: seq<bool>)
    requires |genes| == |act|
    ensures |Resolve(genes, act)| == |act|
    ensures forall k :: 0 <= k < |act| && act[k] ==> Resolve(genes, act)[k]
  {
    ResolveDownKeeps(genes, act, |act|);
  }

  /** After resolution every active node's node references point to active
      nodes at smaller positions. */
  lemma ResolveClosed(genes: seq<Gene>, act: seq<bool>)
    requires WellFormed(genes) && |genes| == |act|
    ensures |Resolve(genes, act)| == |act|
    ensures Closed(genes, Resolve(genes, act))
    ensures forall j, i :: 0 <= j < |act| && Resolve(genes, act)[j] && 0 <= i < |genes[j].inputs| && 0 <= genes[j].inputs[i] ==>
      genes[j].inputs[i] < j
  {
    ResolveDownClosedBelow(genes, act, |act|);
    forall j, i | 0 <= j < |act| && 0 <= i < |genes[j].inputs| && 0 <= genes[j].inputs[i]
      ensures genes[j].inputs[i] < j
    {
      assert WellFormedGene(genes[j], j);
    }
  }

  /** A node is active after resolution exactly when it was active before
      or a later node that is active after resolution references it. */
  lemma ResolveCharacterization(genes: seq<Gene>, act: seq<bool>, k: nat)
    requires WellFormed(genes) && |genes| == |act| && k < |act|
    ensures |Resolve(genes, act)| == |act|
    ensures Resolve(genes, act)[k] <==>
      act[k] || exists q :: k < q < |act| && Resolve(genes, act)[q] && k in genes[q].inputs
  {
    var res := Resolve(genes, act);
    ResolveKeepsFlags(genes, act);
    ResolveClosed(genes, act);
    if res[k] && !act[k] {
      ResolveDownOrigin(genes, act, |act|, k);
    }
    if exists q :: k < q < |act| && res[q] && k in genes[q].inputs {
      var q :| k < q < |act| && res[q] && k in genes[q].inputs;
      var i := FirstIndex(genes[q].inputs, k);
      assert genes[q].inputs[i] == k;
    }
  }

  /** The pass leaves a closed flag sequence unchanged. */
  lemma {:induction false} ResolveDownFixesClosed(genes: seq<Gene>, act: seq<bool>, j: nat)
    requires |genes| == |act| && j <= |act| && Closed(genes, act)
    ensures ResolveDown(genes, act, j) == act
    decreases j
  {
    if j > 0 {
      if act[j - 1] {
        var m := Mark(act, genes[j - 1].inputs);
        forall k | 0 <= k < |act|
          ensures m[k] == act[k]
        {
          if k in genes[j - 1].inputs {
            var i := FirstIndex(genes[j - 1].inputs, k);
            assert genes[j - 1].inputs[i] == k;
          }
        }
        assert m == act;
      }
      ResolveDownFixesClosed(genes, act, j - 1);
    }
  }

  /** Running resolution a second time changes nothing. */
  lemma ResolveIdempotent(genes: seq<Gene>, act: seq<bool>)
    requires WellFormed(genes) && |genes| == |act|
    ensures |Resolve(genes, act)| == |act|
    ensures Resolve(genes, Resolve(genes, act)) == Resolve(genes, act)
  {
    var res := Resolve(genes, act);
    ResolveClosed(genes, act);
    ResolveDownFixesClosed(genes, res, |res|);
  }

  /** Resolution keeps the output nodes active. */
  lemma ResolveKeepsOutputs(genes: seq<Gene>, n: nat)
    requires |genes| == n
    ensures |Resolve(genes, OutputMask(n))| == n
    ensures forall k :: 0 <= k < n && n - NumOutputs <= k ==> Resolve(genes, OutputMask(n))[k]
  {
    ResolveKeepsFlags(genes, OutputMask(n));
  }
}
