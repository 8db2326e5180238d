/**
 * The two mutable records of the network: a synapse (an outgoing edge with
 * its weight and the gradient term of its last update) and a neuron (its output and its
 * outgoing synapses, `synapses[k]` leading to neuron `k` of the next layer).
 */
module Records {

  class Synapse {
    var weight: real
    /** The gradient term `change` of the last update (not the change applied); 0.0 until the first one. */
    var deltaOld: real

    /** Any weight is accepted as given; nothing bounds or checks it. */
    constructor (weight: real)
      ensures this.weight == weight && deltaOld == 0.0
    {
      this.weight := weight;
      deltaOld := 0.0;
    }

    /**
     * The momentum update of one synapse: the weight moves by
     * `rate * change + momentum * deltaOld`, and `change` becomes the
     * previous change.
     */
    method Adjust(change: real, rate: real, momentum: real)
      modifies this
      ensures weight == old(weight) + rate * change + momentum * old(deltaOld)
      ensures deltaOld == change
    {
      weight := weight + rate * change + momentum * deltaOld;
      deltaOld := change;
    }

    /** A synapse made without a weight gets 0.0. */
    constructor Unweighted()
      ensures weight == 0.0 && deltaOld == 0.0
    {
      weight := 0.0;
      deltaOld := 0.0;
    }
  }

  class Neuron {
    /** `synapses[k]` is the edge to neuron `k` of the next layer. */
    var synapses: seq<Synapse>
    var outputVal: real

    constructor ()
      ensures synapses == [] && outputVal == 0.0
    {
      synapses := [];
      outputVal := 0.0;
    }
  }
}
