# Cartesian genetic programming engine of a Flappy Bird learner

This project models the engine in `cgp.py` that evolves the controllers of the
game's planes. A controller is an `Individual`: a fixed-length list of `Node`
objects that forms a feed-forward graph. Each node holds:

- an operator taken from a five-entry function table (add, subtract, multiply, guarded divide, negate);
- one input reference per operator argument, either an external input (a negative reference) or an earlier node;
- one weight per reference.

The model covers:

- creating an individual;
- the reverse pass that marks the nodes the outputs depend on (`determineActiveNodes`);
- evaluation of the active nodes;
- mutation of a deep copy;
- one generation of `evolve`, which ranks by three fitness scores, takes the fittest of each ranking, deduplicates, backfills from the distance ranking, draws a parent with cumulative weights, and breeds mutated children;
- `create_population`.

## How the model is organised

- **Values.** `Graph.Gene` is the structure of one node as a value. A genotype is a `seq<Gene>`. `Graph.WellFormed` is the rule that every reference of node `p` lies in `[-5, p-1]`.
- **Semantics.** `Graph.Value` is the meaning of the graph: a node's output computed recursively from all of its inputs, with no active flags involved. Evaluation is proved against it.
- **Resolution.** `Resolver.ResolveDown` is the reverse pass as a function on flag sequences. Its lemmas show that it never clears a flag and that its result is closed: every node an active node references is active. They characterise exactly which nodes it activates, and show that running it twice changes nothing. That last fact is why caching the result in `activeNodesDetermined` is sound.
- **Mutation as a value.** `Mutation.MutateGene` is mutation as a value, in the source's own slot order. The model proves that it preserves well-formedness, and states where every new reference and weight comes from.
- **Objects.** `Cgp.Node` and `Cgp.Individual` are classes whose methods update fields in place. Each method is proved against the value layer through the ghost views `Genome()` and `Actives()`. The object invariant `Valid()` says:
  - the nodes are distinct;
  - the genotype is well formed;
  - the output nodes are active;
  - the active set is closed whenever the cache flag is set.
- **Helpers behind `evolve`:**
  - `Ranking` is the stable sort (`sorted(pop, key=...)`);
  - `Selection` has the order-preserving `list(dict.fromkeys(...))`, the slice `s[-n:]` and the backfill loop;
  - `Choices` is the one draw that `random.choices(population, cum_weights=w)` makes, uniform when `w` is `None` and weighted otherwise.
- **One generation.** `Evolution` puts these together into `evolve` and `create_population`.

## Where the code differs from the documented intent

The model follows the code in each of these cases:

- **Mutation at rate 0 is not the identity.** For a two-input node, slot 1 is visited first, while the list being rebuilt is still empty. So the `inputIndex > len(node.inputIndices)` branch draws a fresh reference and weight. Slot 0 then keeps its old reference, and the two end up in reverse order. `Mutation.MutateZeroRate` states the result.
- **Slot order is reversed.** The rebuilt lists are filled from the highest slot down. So even with every roll succeeding, a two-input node gets its old weights back in swapped order (`Mutation.MutateAllSlotsTwoInputs`).
- **`evolve` returns `parents + children`.** `parents` is the concatenation before deduplication, so an individual that tops several rankings appears several times.
- **Only one parent is drawn.** `random.choices` is called with the default `k = 1`, and `random.choice` then picks from that one-element list. Every child therefore comes from the same parent.
- **Mutation resets only the total fitness.** The distance and target fitness are copied from the parent.
- **External inputs use the weight of the first matching slot.** An external input is multiplied by the weight at the first slot holding the same reference (`inputIndices.index(inputIndex)`), not necessarily the weight of its own slot.
- **The parent draw is a right bisection of the cumulative weights.** It bisects at `random() * total`, where `total` is the last cumulative weight, on `[0, n-1]`. A length mismatch raises `ValueError`. An empty parent set with empty weights raises `IndexError`. A total that is not positive raises `ValueError`, as Python 3.9 and later do; earlier versions bisect anyway.

## Model

| member | source | states |
|---|---|---|
| Operators.GuardedDiv | cgp.py:20-25 | below the 1e-6 threshold the result is the numerator; otherwise it is the exact quotient (r * b == a, b nonzero) |
| Operators.TableArities | cgp.py:30 | every table entry takes one or two arguments, and only negation takes one |
| Operators.DivExamples | cgp.py:20-25 | division by 5 is exact; divisors 1e-9, -5e-7 and 0 leave the numerator unchanged |
| Graph.CreationWellFormed | cgp.py:63-78 | a genotype built from in-range draws is well formed: list lengths equal the arity, references lie in [-5, p-1], weights in [-1, 1] |
| Graph.FirstNodeReadsInputsOnly | cgp.py:76 | node 0 of a well-formed genotype references external inputs only (randint(-5, -1)) |
| Graph.FirstIndex | cgp.py:118 | list.index: the returned position holds x and no earlier position does |
| Graph.ValueFromSlots | cgp.py:105-120 | a node's value is its operator applied to the values arriving at its slots, however they were gathered |
| Resolver.MarkStep | cgp.py:93-96 | marking one more reference sets only the flag it names, and only when it is a node reference |
| Resolver.ResolveDownStep | cgp.py:87-96 | one visit of the reverse pass: an active node marks the nodes it references; an inactive node changes nothing |
| Resolver.ResolveDownKeeps | cgp.py:84-96 | the pass keeps the length and never clears a flag |
| Resolver.ResolveDownAbove | cgp.py:84-96 | the pass below position j leaves every flag at or above j alone, because references point backwards |
| Resolver.ResolveDownClosedBelow | cgp.py:84-96 | after the pass below j, every reference of an active node below j points to an active node |
| Resolver.ResolveDownOrigin | cgp.py:84-96 | every flag the pass sets belongs to a node referenced by a later node active at the end |
| Resolver.ResolveKeepsFlags | cgp.py:84-96 | resolution never clears a flag |
| Resolver.ResolveClosed | cgp.py:84-96 | after resolution the active set is closed under references, and references point to smaller positions |
| Resolver.ResolveCharacterization | cgp.py:84-96 | a node is active after resolution iff it was active before or a later active node references it |
| Resolver.ResolveDownFixesClosed | cgp.py:84-96 | the pass leaves a closed flag sequence unchanged |
| Resolver.ResolveIdempotent | cgp.py:100-103 | resolving twice equals resolving once, so caching the result is sound |
| Resolver.ResolveKeepsOutputs | cgp.py:79-96 | the output nodes stay active through resolution |
| Mutation.MutateGeneFromChoices | cgp.py:138-155 | lists built entry by entry from the slot choices, entry k from slot a-1-k, are the mutated node |
| Mutation.MutateGeneWellFormed | cgp.py:129-157 | a mutated node is well formed at its position under the new operator's arity |
| Mutation.MutateGeneSlotOrigin | cgp.py:138-155 | entry k of a mutated node comes from slot a-1-k, as the parent's reference or weight there or a fresh draw |
| Mutation.MutateGeneWeights | cgp.py:142-155 | every weight of a mutated node is a parent weight or the weight drawn for its slot |
| Mutation.MutateZeroRate | cgp.py:129-157 | at rate 0: the operator is kept; a one-input node is unchanged; a two-input node becomes [fresh, old slot 0] |
| Mutation.MutateAllSlotsTwoInputs | cgp.py:138-147 | when every roll succeeds on a two-input node: both references are fresh and the old weights are swapped |
| Mutation.MutateGrowsArity | cgp.py:148-151 | a one-input node that becomes two-input gets a fresh reference and weight in its first entry |
| Mutation.MutateTwoInputsFreshFirst | cgp.py:138-151 | at any rate, a mutated node with two inputs has slot 1's drawn reference first, since slot 1 is visited while the rebuilt list is empty |
| Mutation.MutateUnrolledOneInput | cgp.py:129-157 | at any rate, a one-input node whose operator and slot rolls both fail is unchanged |
| Mutation.MutatePreservesWellFormed | cgp.py:129-157 | mutating every node keeps the genotype well formed, hence acyclic |
| Selection.Dedup | cgp.py:181 | list(dict.fromkeys(s)): duplicate free, with the same elements as s |
| Selection.DedupFirstOccurrenceOrder | cgp.py:181 | deduplication keeps first occurrences in their original order |
| Selection.DedupLength | cgp.py:181 | deduplication never lengthens a sequence |
| Selection.DedupOfDistinct | cgp.py:187 | a duplicate-free sequence is its own deduplication |
| Selection.DedupAppend | cgp.py:186-187 | appending x and deduplicating adds x at the end unless it is already present |
| Selection.TopSlice | cgp.py:177 | s[-n:]: the last n entries, or all of s when n is 0 or exceeds its length |
| Selection.TopSliceMembers | cgp.py:177 | the slice holds entries of s only |
| Selection.BackfillStep | cgp.py:184-187 | one iteration of the while loop: step one place down the ranking, or IndexError past its start |
| Selection.BackfillLoop | cgp.py:182-187 | the while loop computes the backfill function, with None for the IndexError |
| Selection.BackfillShape | cgp.py:184-187 | a filled set is duplicate free, has exactly the target size, extends the start set and draws only from the ranking |
| Selection.BackfillSucceedsIff | cgp.py:184-187 | starting from the top of the ranking, backfilling succeeds iff the ranking has at least target distinct members |
| Selection.BackfillNext | cgp.py:184-187 | one iteration keeps the start set duplicate free, drawn from the ranking, and holding every entry passed so far |
| Selection.BackfillAtLeast | cgp.py:184 | a returned set is never short of the target |
| Selection.BackfillMembers | cgp.py:186 | backfilling only adds entries of the ranking |
| Ranking.InsertContents | cgp.py:172-174 | insertion adds exactly the new position and lengthens the list by one |
| Ranking.InsertRanked | cgp.py:172-174 | inserting a new position into a stably ranked list keeps it stably ranked |
| Ranking.SortIndicesRanked | cgp.py:172-174 | the sort lists each position below n once, in stable ascending order of keys |
| Ranking.SortIndicesInRange | cgp.py:172-174 | the sort lists positions of keys only |
| Ranking.SortIndicesStable | cgp.py:172-174 | sorted(): every position once, keys nondecreasing, equal keys in original order |
| Ranking.SortedPermutation | cgp.py:172-174 | the sorted list is a permutation of the original |
| Choices.BisectRight | cgp.py:190 | bisect_right stays within [lo, hi] |
| Choices.BisectRightSplits | cgp.py:190 | on nondecreasing entries, entries before the result are <= x and the entry at it is > x |
| Choices.Choose | cgp.py:190 | random.choices fails exactly on a length mismatch, an empty population or a nonpositive total; otherwise it returns a member |
| Choices.ChooseErrors | cgp.py:190 | which exception each failure raises, in the order the checks run |
| Choices.ChooseInterval | cgp.py:190 | element k is drawn exactly when roll * total lies in [w[k-1], w[k]), so probability is proportional to its weight |
| Choices.ChooseUniform | cgp.py:190 | without weights, the draw fails, with IndexError, exactly on an empty population; otherwise it returns a member |
| Choices.ChooseUniformInterval | cgp.py:190 | without weights, element k is drawn when roll * n lies in [k, k + 1), so each element has probability 1/n |
| Choices.ChooseOne | cgp.py:190 | with the weights None the draw is uniform and fails only on an empty population; with weights it fails exactly as the weighted draw does; a drawn element is a member |
| Evolution.RankSorted | cgp.py:172-174 | each ranking is a permutation of the population, nondecreasing in its score |
| Evolution.TopSliceFittest | cgp.py:176-177 | no individual outside the top slice scores higher than one inside it |
| Evolution.RankMembers | cgp.py:172-174 | a ranking holds exactly the population's individuals |
| Evolution.ParentsMembers | cgp.py:177 | every parent is an individual of the population |
| Evolution.ParentsLength | cgp.py:172-177 | with each count positive and at most the population size, there are exactly sum(numParents) parents, repeats included |
| Evolution.TopDistanceInParents | cgp.py:177-183 | the top numParents[1] of the distance ranking are among the deduplicated parents |
| Evolution.ParentSetSucceedsIff | cgp.py:181-187 | with positive counts, the backfill succeeds iff the population has at least sum(numParents) distinct individuals |
| Evolution.ParentSetShape | cgp.py:181-187 | a filled parent set is duplicate free, has sum(numParents) members from the population, and starts with the deduplicated parents |
| Evolution.ParentSetMembers | cgp.py:181-187 | every member of a filled parent set is from the population |
| Evolution.DrawFromPopulation | cgp.py:190 | the drawn parent is a member of the population |
| Evolution.SelectParents | cgp.py:172-187 | returns the concatenated top slices and the backfilled parent set (None on IndexError) |
| Evolution.ChooseParent | cgp.py:172-190 | returns the parents and the drawn parent, or the exception raised on the way; a drawn parent is from the population |
| Evolution.Evolve | cgp.py:170-199 | fails exactly when selection or the draw raises, with the same exception; otherwise returns the parents followed by numChildren mutations of the drawn parent, pairwise distinct fresh objects with fresh nodes that no two children share |
| Evolution.Reproduce | cgp.py:193-199 | the result is the parents followed by numChildren children of the weighted parent, pairwise distinct fresh objects with fresh nodes that no two children share |
| Evolution.Breed | cgp.py:193-197 | each child is a mutation of the one weighted parent with its own draws; the children are pairwise distinct fresh objects, their nodes are fresh, and no two children share a node |
| Evolution.Offspring | cgp.py:196-197 | one more child: a fresh mutation of the parent with fresh nodes, none of the children so far and sharing no node with them |
| Evolution.CreatePopulation | cgp.py:202-203 | popSize distinct fresh individuals, each as the constructor creates it, with fresh nodes that no two individuals share |
| Cgp.Node.constructor | cgp.py:35-41 | a blank node: no inputs or weights, no output, inactive |
| Cgp.Node.Copy | cgp.py:127 | a deep copy of a node carries every field over |
| Cgp.Node.Mutate | cgp.py:129-157 | the node's structure becomes the mutated gene, it is inactive, and its output and position are unchanged |
| Cgp.Individual.constructor | cgp.py:48-61 | a valid individual with the created genotype, only the outputs active, zero fitness and the cache flag clear |
| Cgp.Individual.Copy | cgp.py:127 | deepcopy: fresh node objects with the same genotype, flags, outputs and fitness |
| Cgp.Individual.CopyNodes | cgp.py:127 | one fresh distinct node object per source node, field for field |
| Cgp.Individual.CreateNodes | cgp.py:63-81 | fills the list with numNodes fresh nodes whose genotype is the created one, and marks only the outputs active |
| Cgp.Individual.BuildNode | cgp.py:66-77 | a fresh node with the drawn operator and the first arity-many drawn references and weights |
| Cgp.Individual.MarkOutputsActive | cgp.py:79-81 | sets exactly the last two nodes active and changes nothing else |
| Cgp.Individual.DetermineActiveNodes | cgp.py:84-96 | the new active flags are the resolution of the old ones; the structure and outputs are unchanged |
| Cgp.Individual.ReversePass | cgp.py:87-96 | the reverse loop leaves each node's flag at the resolved value |
| Cgp.Individual.ActivateInputsOf | cgp.py:93-96 | the inner loop sets every node referenced by node j active and nothing else |
| Cgp.Individual.Eval | cgp.py:99-123 | resolves if needed; every active node then holds the graph's value there, and the last and second-to-last values are returned; structure and node positions are unchanged |
| Cgp.Individual.ResolveIfNeeded | cgp.py:100-103 | resolves only when the cache flag is clear, then sets it; outputs and node positions are unchanged |
| Cgp.Individual.ComputeOutputs | cgp.py:105-120 | every active node's output becomes the graph's value at that node; inactive outputs, the structure, the flags and node positions are untouched |
| Cgp.Individual.ForwardPass | cgp.py:105-120 | the forward loop over the list computes each active node's value, in list order, keeping structure, flags and node positions |
| Cgp.Individual.ComputeNode | cgp.py:107-120 | an active node stores its operator applied to its gathered arguments, which is the graph's value there, keeping its structure, flag and position |
| Cgp.Individual.GatherInputs | cgp.py:108-118 | the arguments are, slot by slot, the referenced node's output or the external input times the weight of the first slot holding that reference |
| Cgp.Individual.Mutate | cgp.py:125-167 | a fresh child with the mutated genotype: only outputs active, total fitness 0, cache flag clear; the parent is unchanged |
| Cgp.Individual.MutateCopy | cgp.py:129-166 | the copy's genotype becomes the mutated one, only outputs are active, total fitness is 0 and the cache flag is clear |
| Cgp.Individual.MutateNodes | cgp.py:129-157 | every node is mutated in list order and left inactive; the genotype stays well formed |

## Left out

- Randomness is a parameter:
  - every `random.randint`, `random.uniform` and `random.random` call of creation and mutation is a caller-supplied `NodeDraw`/`SlotDraw`, constrained to the ranges the calls produce;
  - the draw of `random.choices` is a `roll` in [0, 1), for the uniform draw when the weights are `None` and for the weighted one otherwise;
  - `random.choice` over the one-element list returns its element.
- Floating point is modelled as exact real arithmetic: no rounding, infinities or NaN.
- The unset `None` of a fresh node's function and output indices is written as 0. Every node gets both before it is used.
- `levelsBack`, the `Function` wrapper class and the per-individual copies of the constants are left out; they do not affect behaviour. The `activeNodes` counter of the reverse pass is kept but never read, as in the source.
- The number of nodes is a parameter `numNodes`, standing for the `N_COLS` setting. It is at least 2, so that both output nodes exist. The settings file, the game, sprites, plotting and the entry points are not part of this model.
- Cgp.Individual.Eval: requires at least five external inputs. With fewer, the source raises `IndexError` only when an active node references a missing one; that partial case is not modelled.
- Evolution.Evolve: the parent counts are naturals. Negative counts, which change the meaning of the Python slices, are not modelled.
- Evolution.Evolve: it takes a population whose individuals all share `numNodes` and are valid, as `create_population` and `mutate` make them. Its postcondition describes children through the `IsChild` predicate, a ghost description of what `Mutate` returns.
- Concurrency and the game loop that calls `eval` and sets the fitness scores are outside the engine.
