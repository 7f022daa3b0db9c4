# NeuronSwarm neuron networks in Dafny

NeuronSwarm answers a question with two trees of language-model agents,
`ReasoningNetwork` (`NeuralUnits/reasoning.py`) and `EmotionNetwork`
(`NeuralUnits/emotions.py`). The two classes are the same line for line.
They differ only in three texts: the leaf instructions, the internal
instructions and the header that goes in front of the children's outputs.

Each network does three things:

- `init_network` builds a table of agents breadth-first, starting from
  `("root", 0)`.
- A node at depth `d` is a leaf when `size == processing_factor ** d`.
- A node that is not a leaf gets the children `f"{name}_child_{i}"` for
  `i in range(processing_factor)`.
- `process_agent` evaluates the table bottom-up. A node is treated as a leaf
  when its `_child_0` is absent. A leaf calls the model on the raw input. An
  internal node evaluates its children, numbers their outputs
  `"1. ...\n2. ..."`, and calls the model on the header followed by that list.
- `execute` builds the table, then evaluates `"root"`.

The model is generic over a `Config` that holds the three texts. The modules
are:

- `Powers`: `**` on integers, the shape condition, the tree height, node counts.
- `Decimal`: the `f"{i}"` rendering of an index, and its inverse.
- `Paths`: node names as paths of child indices; the node and leaf sets of a
  perfect tree.
- `NeuronTree`: the agent table a complete build produces, and its facts.
- `Evaluation`: `process_agent` as a function over the table, with the model
  call as a parameter.
- `NeuronNetwork`: the network object as a class: `create_agent`,
  `init_network` and `execute`.
- `Reasoning` and `Emotions`: the two instances, with their own texts.

The model call is an `Oracle`, a function from (instructions, message) to
the content of the last reply. Each evaluation result also carries the number
of model calls it made. The source does not compute that count. It is there
so that the number of calls can be stated.

Factor 2 and size 4 build four leaves, two depth-1 nodes and the root, so
evaluating them takes seven model calls (`Evaluation.EvaluateTwoByFour`).
`init_network` never clears `self.agents`. It overwrites the same keys, so
`Execute` merges the build into the old table (`old(agents) + Built`).

## Model

| member | source | states |
|---|---|---|
| Powers.Pow | NeuralUnits/reasoning.py:26 | `processing_factor ** depth` on Python ints: at least 1 for a positive base, and always 1 for the base 1 |
| Powers.HeightSpec | NeuralUnits/reasoning.py:26 | for a size that is a power of the factor, the leaf test `size == pf ** depth` holds at depth `Height` and at no smaller depth |
| Powers.HeightOfOne | NeuralUnits/reasoning.py:26 | size 1 is a valid shape for every factor >= 1, and the root (depth 0) is the leaf |
| Powers.HeightOfFactor | NeuralUnits/reasoning.py:26 | size == factor (factor >= 2) first passes the leaf test at depth 1 |
| Powers.HeightOfFour | NeuralUnits/reasoning.py:26 | factor 2, size 4 is a valid shape of height 2 |
| Powers.SubtreeSizeClosedForm | NeuralUnits/reasoning.py:29-32 | (pf-1) times the node count of a perfect pf-ary tree of height n is pf^(n+1) - 1 |
| Powers.SubtreeSizeFormula | NeuralUnits/reasoning.py:29-32 | for pf >= 2 a perfect tree of height n has (pf^(n+1) - 1) / (pf - 1) nodes |
| Decimal.FromNat | NeuralUnits/reasoning.py:31 | `f"{i}"` is a non-empty string of decimal digits with no leading zero unless i is 0 |
| Decimal.RoundTrip | NeuralUnits/reasoning.py:31 | reading the rendered digits back gives the index |
| Decimal.FromNatInjective | NeuralUnits/reasoning.py:31 | distinct indices render to distinct strings |
| Paths.ChildName | NeuralUnits/reasoning.py:31 | a child's name begins with its parent's name and is at least 8 characters longer |
| Paths.ChildNameInjective | NeuralUnits/reasoning.py:31 | a child name determines both the parent's name and the index |
| Paths.PathName | NeuralUnits/reasoning.py:22-32 | the name of a node reached by a path is "root" followed by one `_child_<i>` per step, and has at least 4 characters |
| Paths.PathNameOfChild | NeuralUnits/reasoning.py:31-32 | the name of `p + [i]` is `f"{name}_child_{i}"` for the name of `p` |
| Paths.PathNameInjective | NeuralUnits/reasoning.py:31 | distinct nodes get distinct names, so no two nodes share a dictionary key |
| Paths.NameImageSize | NeuralUnits/reasoning.py:17 | a set of nodes gives as many names (table keys) as it has members |
| Paths.PrefixedSize | NeuralUnits/reasoning.py:30-32 | giving every path of a set `w` children yields `w` times as many paths |
| Paths.NodesMembership | NeuralUnits/reasoning.py:29-32 | a path is a node of the perfect tree of height n exactly when it has at most n steps, each below the factor |
| Paths.LeavesMembership | NeuralUnits/reasoning.py:26-29 | a path is a leaf of that tree exactly when it has exactly n steps, each below the factor |
| Paths.NodesSize | NeuralUnits/reasoning.py:20-32 | the perfect tree of height n has SubtreeSize(pf, n) nodes |
| Paths.LeavesSize | NeuralUnits/reasoning.py:26-29 | the perfect tree of height n has pf^n leaves |
| NeuronTree.Range | NeuralUnits/reasoning.py:30 | `range(n)` lists 0 .. n-1 in order, and nothing when n <= 0 |
| NeuronTree.Width | NeuralUnits/reasoning.py:30 | the number of children a node gets is the length of `range(processing_factor)` |
| NeuronTree.Entry | NeuralUnits/reasoning.py:26-27 | the agent created for a node is named after its path and carries the leaf or internal instructions; with distinct texts it gets the leaf instructions exactly when `size == pf ** depth` |
| NeuronTree.Table | NeuralUnits/reasoning.py:16-17 | the keys of the table built from a set of nodes are exactly those nodes' names |
| NeuronTree.TableAt | NeuralUnits/reasoning.py:16-17 | each node's agent is stored under its own name, with its depth's leaf flag |
| NeuronTree.TableAdd | NeuralUnits/reasoning.py:17 | adding one node to the set is one dictionary assignment `agents[name] = agent` |
| NeuronTree.BuiltCases | NeuralUnits/reasoning.py:20-32 | with factor >= 1 the build is the perfect tree; with factor <= 0 `range` is empty and the build is the root alone, a leaf exactly when size == 1 |
| NeuronTree.LeafAtFullHeight | NeuralUnits/reasoning.py:26 | within the tree the leaf test holds exactly at the full height |
| NeuronTree.ExpectedAt | NeuralUnits/reasoning.py:20-32 | a path's name is in the built table exactly when the path is a node, and then it holds the agent created at that depth |
| NeuronTree.ExpectedNames | NeuralUnits/reasoning.py:20-32 | every key of the built table is the name of a node |
| NeuronTree.ExpectedRoot | NeuralUnits/reasoning.py:21-27 | "root" is in the table, created at depth 0, a leaf exactly when size == 1 |
| NeuronTree.ExpectedChildren | NeuralUnits/reasoning.py:29-32 | `{name}_child_{i}` is in the table exactly when i < factor and the parent fails the leaf test, and it was created one level down |
| NeuronTree.LeafTestMatchesFlag | NeuralUnits/reasoning.py:41 | the evaluator's leaf test (`_child_0` absent) holds exactly for agents built with the leaf instructions |
| NeuronTree.ExpectedHoldsNodes | NeuralUnits/reasoning.py:20-32 | every node of the built table has the instructions and children its height calls for |
| NeuronTree.PerfectBelow | NeuralUnits/reasoning.py:20-32 | from those local facts, the subtree under every node is a perfect tree of the remaining height |
| NeuronTree.ExpectedIsPerfect | NeuralUnits/reasoning.py:20-32 | a complete build is a perfect pf-ary tree of height `Height` under "root" |
| NeuronTree.ExpectedSize | NeuralUnits/reasoning.py:20-32 | the built table has one agent per node, SubtreeSize(pf, Height) in all, and a single agent for factor 1 |
| NeuronTree.ExpectedSizeFormula | NeuralUnits/reasoning.py:20-32 | for factor >= 2 the built table has (pf * size - 1) / (pf - 1) agents |
| NeuronTree.ExpectedLeaves | NeuralUnits/reasoning.py:26-27 | the agents with the leaf instructions are exactly the nodes at full height, and there are `size` of them |
| NeuronTree.TwoByFourCounts | NeuralUnits/reasoning.py:20-32 | factor 2 and size 4 build 7 agents, 4 of them leaves |
| Evaluation.Line | NeuralUnits/reasoning.py:47 | the line for child `i` is the digits of `i + 1` (they read back as `i + 1`), then ". ", then the child's output unchanged |
| Evaluation.JoinLines | NeuralUnits/reasoning.py:47 | `"\n".join` of no lines is empty, and otherwise starts with the first line (JoinLinesAppend gives the separators) |
| Evaluation.ChildContext | NeuralUnits/reasoning.py:47 | the context of no children is empty, and otherwise starts with the first child's numbered line |
| Evaluation.JoinLinesAppend | NeuralUnits/reasoning.py:47 | joining two non-empty blocks of lines puts exactly one newline between them |
| Evaluation.ChildContextAppend | NeuralUnits/reasoning.py:47 | one more child output adds one line at the end, numbered by its position plus one |
| Evaluation.ChildContextExample | NeuralUnits/reasoning.py:47 | the outputs "A", "B", "C" give the context "1. A\n2. B\n3. C" |
| Evaluation.Collect | NeuralUnits/reasoning.py:45-46 | gathering the children succeeds exactly when every child does, with the replies in child order; otherwise it fails with the first failing child's error |
| Evaluation.Process | NeuralUnits/reasoning.py:37-50 | a missing name raises KeyError; a factor <= 0 raises IndexError at `children[0]`; a success means the name was present, the factor >= 1, and at least one model call was made |
| Evaluation.ProcessLeaf | NeuralUnits/reasoning.py:41-43 | a node without `_child_0` makes one model call with its instructions on the raw input and returns its content |
| Evaluation.ProcessInternal | NeuralUnits/reasoning.py:45-50 | an internal node evaluates every child on the same input and makes one call on the header plus the children's numbered outputs in index order |
| Evaluation.ProcessChildFailure | NeuralUnits/reasoning.py:45-46 | a failure of any child makes the parent's evaluation fail |
| Evaluation.ProcessUniformChildren | NeuralUnits/reasoning.py:45-50 | children that all give the same reply produce the header plus that reply repeated and numbered, and 1 + pf times the children's calls |
| Evaluation.PerfectInternal | NeuralUnits/reasoning.py:45-50 | an internal node whose children all give the reference answer one level down gives the reference answer at its own height, with one call per node |
| Evaluation.ProcessPerfect | NeuralUnits/reasoning.py:37-50 | evaluating a perfect subtree of height n gives the reference answer `Tower` for n, after one model call per node |
| Evaluation.EvaluateBuiltNetwork | NeuralUnits/reasoning.py:52-54 | evaluating "root" in a complete build gives the reference answer for the full height, after exactly one model call per agent |
| Evaluation.EvaluateTwoByFour | NeuralUnits/reasoning.py:52-54 | factor 2 and size 4 give a tree of height 2 whose evaluation makes 7 model calls |
| NeuronNetwork.ChildEntries | NeuralUnits/reasoning.py:30-32 | the entries queued for a node are `(f"{name}_child_{i}", depth + 1)` for each index in order |
| NeuronNetwork.EnqueueChildren | NeuralUnits/reasoning.py:30-32 | the loop appends exactly the child entries for `range(processing_factor)` to the back of the queue |
| NeuronNetwork.RemainingStep | NeuralUnits/reasoning.py:24-32 | one turn of the build loop leaves exactly one fewer agent still to be created |
| NeuronNetwork.CoverStep | NeuralUnits/reasoning.py:24-32 | after one turn, every node of the tree is still either created or below a queued entry |
| NeuronNetwork.VisitStep | NeuralUnits/reasoning.py:24-32 | one turn keeps the queue inside the tree, keeps every node covered, and decreases the work left |
| NeuronNetwork.AllDone | NeuralUnits/reasoning.py:24 | when the queue is empty the created nodes are exactly the tree's nodes |
| NeuronNetwork.Network.constructor | NeuralUnits/reasoning.py:6-10 | a new network keeps its factor, size and texts, and has an empty agent table |
| NeuronNetwork.Network.CreateAgent | NeuralUnits/reasoning.py:12-18 | the agent gets the name and the instructions chosen by the leaf flag, and it is stored under its name, replacing any earlier agent |
| NeuronNetwork.Network.InitNetwork | NeuralUnits/reasoning.py:20-32 | the breadth-first build from ("root", 0) adds exactly the agents of the tree the shape determines to the existing table |
| NeuronNetwork.Network.Execute | NeuralUnits/reasoning.py:52-54 | the table after `execute` is the old one merged with the build, and the output is the evaluation of "root" over it; factor <= 0 gives IndexError; on a fresh table it is the reference answer |
| NeuronNetwork.ExecuteTwice | NeuralUnits/reasoning.py:52-54 | a fresh network gives the reference answer, and calling `execute` a second time on the same object gives the same answer |
| Reasoning.NewReasoningNetwork | NeuralUnits/reasoning.py:6-10 | a new reasoning network has the reasoning texts and an empty table |
| Reasoning.ReasoningLeaves | NeuralUnits/reasoning.py:13-15 | exactly `reasoning_size` agents get the reasoning leaf instructions, and the evaluator's leaf test picks out exactly those |
| Reasoning.ReasoningSingleNeuron | NeuralUnits/reasoning.py:41-43 | with size 1, `execute` answers with one call on the reasoning leaf instructions and the raw input |
| Reasoning.ReasoningOneLayer | NeuralUnits/reasoning.py:45-49 | with size == factor, the root calls the model on "Integrate child outputs for reasoning:\n" followed by the leaves' identical answers, numbered |
| Emotions.NewEmotionNetwork | NeuralUnits/emotions.py:6-10 | a new emotion network has the emotion texts and an empty table |
| Emotions.EmotionLeaves | NeuralUnits/emotions.py:13-15 | exactly `emotion_size` agents get the emotion leaf instructions, and the evaluator's leaf test picks out exactly those |
| Emotions.EmotionSingleNeuron | NeuralUnits/emotions.py:41-43 | with size 1, `execute` answers with one call on the emotion leaf instructions and the raw input |
| Emotions.EmotionOneLayer | NeuralUnits/emotions.py:45-49 | with size == factor, the root calls the model on "Process child outputs:\n" followed by the leaves' identical answers, numbered |

The rows that cite `NeuralUnits/reasoning.py` for the generic modules apply
unchanged to `NeuralUnits/emotions.py`, whose lines are the same.

## Left out

- `brain.py` is not part of this model. It loads the environment, runs both networks concurrently, makes the final synthesis call and prints.
- `run_agent` and `client.run` (the Swarm client) are replaced by the `Oracle` parameter. The oracle is a total function. Failures of the model call, network errors and nondeterministic replies are not modelled. Reading `response.messages[-1]['content']` is folded into the oracle's result.
- `asyncio` concurrency: the queue is a sequence and `asyncio.gather` is evaluated in child order. When several children fail, the model reports the first failure in index order. Python reports the first exception raised in time, which depends on scheduling.
- NeuronNetwork.Network.InitNetwork: requires that the build terminates. With factor >= 1 and a size that is not a power of the factor, the loop never ends: every turn adds an agent under a new, longer name, and with factor >= 2 the queue grows as well. The model does not reproduce that hang. It excludes the case by precondition, and `Execute` inherits the precondition.
- NeuronNetwork.Network.Execute: the reference answer is stated only when the table held nothing but the build, for example on a fresh network or a second call. With stray agents left in the table from earlier, only the general statement holds: the output is the evaluation of the merged table.
- `swarm.Agent` keeps only the name and the instructions. Its other fields (model, functions, tool choice) are not used by the core.
- Integers are unbounded, as in Python, so there is no overflow to model.
- Evaluation.JoinLines: the contract gives only the empty case and the opening line. The separators are stated by `JoinLinesAppend`. A fuller contract on the function itself makes every proof that unfolds an internal node's prompt much more expensive.
- Evaluation.ChildContext: the contract gives only the empty case and the first numbered line. The order and numbering of the later lines are stated by `ChildContextAppend` and `ChildContextExample`, for the same reason.
