/** The reasoning network: the generic network with the reasoning texts. */
module Reasoning {
  import opened Powers
  import opened Paths
  import opened NeuronTree
  import opened Evaluation
  import opened NeuronNetwork

  /** The leaf and internal instructions of `create_agent` and the header
      `process_agent` puts before the child outputs. */
  const Prompts := Config(
    "Analyze and synthesize information to form a coherent thought. Use reasoning ablilites, using the PUREST form of logical thinking.",
    "Integrate inputs from child neurons to develop a reasoning process.",
    "Integrate child outputs for reasoning:\n")

  /** `ReasoningNetwork(processing_factor, reasoning_size, client)`: an empty table. */
  method NewReasoningNetwork(processingFactor: int, size: int) returns (net: Network)
    ensures fresh(net)
    ensures net.cfg == Prompts && net.processingFactor == processingFactor && net.size == size
    ensures net.agents == map[]
  {
    net := new Network(Prompts, processingFactor, size);
  }

  /** In a complete build exactly `reasoning_size` agents get the reasoning leaf
      instructions, and the evaluator's leaf test picks out exactly those agents. */
  lemma ReasoningLeaves(processingFactor: int, size: int)
    requires ValidShape(processingFactor, size)
    ensures |LeafNames(Prompts, Expected(Prompts, processingFactor, size))| == size
    ensures forall k :: k in Expected(Prompts, processingFactor, size) ==>
              (ChildName(k, 0) !in Expected(Prompts, processingFactor, size) <==>
               Expected(Prompts, processingFactor, size)[k].instructions == Prompts.leafInstructions)
  {
    ExpectedLeaves(Prompts, processingFactor, size);
    forall k | k in Expected(Prompts, processingFactor, size)
      ensures ChildName(k, 0) !in Expected(Prompts, processingFactor, size) <==>
              Expected(Prompts, processingFactor, size)[k].instructions == Prompts.leafInstructions
    {
      LeafTestMatchesFlag(Prompts, processingFactor, size, k);
    }
  }

  /** A single reasoning neuron answers the input directly. */
  method ReasoningSingleNeuron(processingFactor: int, input: string, complete: Oracle)
    returns (output: Result<string>)
    requires processingFactor >= 1
    ensures output == Ok(complete(Prompts.leafInstructions, input))
  {
    HeightOfOne(processingFactor);
    var net := NewReasoningNetwork(processingFactor, 1);
    MergeIdle(net.agents, Built(Prompts, processingFactor, 1));
    output := net.Execute(input, complete);
  }

  /** With `reasoning_size == processing_factor` the root integrates one layer of
      leaves, each of which answered the raw input. */
  method ReasoningOneLayer(processingFactor: int, input: string, complete: Oracle)
    returns (output: Result<string>)
    requires processingFactor >= 2
    ensures output == Ok(complete(Prompts.internalInstructions,
                                  Prompts.header +
                                  ChildContext(Repeat(complete(Prompts.leafInstructions, input),
                                                      processingFactor))))
  {
    HeightOfFactor(processingFactor);
    var net := NewReasoningNetwork(processingFactor, processingFactor);
    MergeIdle(net.agents, Built(Prompts, processingFactor, processingFactor));
    output := net.Execute(input, complete);
  }
}
