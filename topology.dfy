/**
 * The shape record of a network: how many input neurons, how many hidden
 * layers of one shared width, how many output neurons.  The record stores
 * the four counts as given; nothing checks that they are positive.
 */
module Topologies {

  /** The four counts, stored unchanged. */
  datatype Topology = Topology(neuronsInput: int, neuronsHidden: int, hiddenLayers: int, neuronsOutput: int)

  /** How many times a loop `for (i = 0; i < c; i++)` runs: a negative bound runs it zero times. */
  function Count(c: int): nat
  {
    if c < 0 then 0 else c
  }

  /**
   * The widths of the layers the network builds from `t`: the input layer,
   * `hiddenLayers` hidden layers of the one hidden width, the output layer.
   */
  function LayerWidths(t: Topology): (ws: seq<nat>)
    ensures |ws| == Count(t.hiddenLayers) + 2
    ensures t.hiddenLayers >= 0 ==> |ws| == t.hiddenLayers + 2
    ensures ws[0] == Count(t.neuronsInput)
    ensures ws[|ws| - 1] == Count(t.neuronsOutput)
    ensures forall i :: 0 < i < |ws| - 1 ==> ws[i] == Count(t.neuronsHidden)
  {
    [Count(t.neuronsInput)] + seq(Count(t.hiddenLayers), _ => Count(t.neuronsHidden)) + [Count(t.neuronsOutput)]
  }

  /** With non-negative counts every layer has exactly the width the record names. */
  lemma WidthsOfNonNegativeTopology(t: Topology)
    requires t.neuronsInput >= 0 && t.neuronsHidden >= 0 && t.hiddenLayers >= 0 && t.neuronsOutput >= 0
    ensures LayerWidths(t) == [t.neuronsInput] + seq(t.hiddenLayers, _ => t.neuronsHidden) + [t.neuronsOutput]
  {
  }
}
