/** The emotion network: the generic network with the emotion texts. */
module Emotions {
  import opened Powers
  import opened Paths
  import opened NeuronTree
  import opened Evaluation
  import opened NeuronNetwork

  /** The leaf and internal instructions of `create_agent` and the header
      `process_agent` puts before the child outputs. */
  const Prompts := Config(
    "Think about the emotions you feel about the world around you. Use the most PURE form of emotional thinking.",
    "Process the output of child neurons and tie them together to develop an emotional response.",
    "Process child outputs:\n")

  /** `EmotionNetwork(processing_factor, emotion_size, client)`: an empty table. */
  method NewEmotionNetwork(processingFactor: int, size: int) returns (net: Network)
    ensures fresh(net)
    ensures net.cfg == Prompts && net.processingFactor == processingFactor && net.size == size
    ensures net.agents == map[]
  {
    net := new Network(Prompts, processingFactor, size);
  }

  /** In a complete build exactly `emotion_size` agents get the emotion leaf
      instructions, and the evaluator's leaf test picks out exactly those agents. */
  lemma EmotionLeaves(processingFactor: int, size: int)
    requires ValidShape(processingFactor, size)
    ensures |LeafNames(Prompts, Expected(Prompts, processingFactor, size))| == size
    ensures forall k :: k in Expected(Prompts, processingFactor, size) ==>
              (ChildName(k, 0) !in Expected(Prompts, processingFactor, size) <==>
               Expected(Prompts, processingFactor, size)[k].instructions == Prompts.leafInstructions)
  {
    ExpectedLeaves(Prompts, processingFactor, size);
    forall k | k in Expected(Prompts, processingFactor, size)
      ensures ChildName(k, 0) !in Expected(Prompts, processingFactor, size) <==>
              Expected(Prompts, processingFactor, size)[k].instructions == Prompts.leafInstructions
    {
      LeafTestMatchesFlag(Prompts, processingFactor, size, k);
    }
  }

  /** A single emotion neuron answers the input directly. */
  method EmotionSingleNeuron(processingFactor: int, input: string, complete: Oracle)
    returns (output: Result<string>)
    requires processingFactor >= 1
    ensures output == Ok(complete(Prompts.leafInstructions, input))
  {
    HeightOfOne(processingFactor);
    var net := NewEmotionNetwork(processingFactor, 1);
    MergeIdle(net.agents, Built(Prompts, processingFactor, 1));
    output := net.Execute(input, complete);
  }

  /** With `emotion_size == processing_factor` the root integrates one layer of
      leaves, each of which answered the raw input. */
  method EmotionOneLayer(processingFactor: int, input: string, complete: Oracle)
    returns (output: Result<string>)
    requires processingFactor >= 2
    ensures output == Ok(complete(Prompts.internalInstructions,
                                  Prompts.header +
                                  ChildContext(Repeat(complete(Prompts.leafInstructions, input),
                                                      processingFactor))))
  {
    HeightOfFactor(processingFactor);
    var net := NewEmotionNetwork(processingFactor, processingFactor);
    MergeIdle(net.agents, Built(Prompts, processingFactor, processingFactor));
    output := net.Execute(input, complete);
  }
}
