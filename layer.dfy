/**
 * One layer of neurons and its feed-forward step.
 */
module Layers {
  import opened Values
  import opened LayerSpec
  import opened Records

  /** `pv` holds, index for index, the outputs and synapse weights of the neurons `ns`. */
  ghost predicate Mirrors(ns: seq<Neuron>, pv: LayerVal)
    reads set p | 0 <= p < |ns| :: ns[p]
    reads set p, k | 0 <= p < |ns| && 0 <= k < |ns[p].synapses| :: ns[p].synapses[k]
  {
    && |ns| == |pv|
    && forall p :: 0 <= p < |ns| ==>
         && ns[p].outputVal == pv[p].outputVal
         && |ns[p].synapses| == |pv[p].synapses|
         && forall k :: 0 <= k < |pv[p].synapses| ==> ns[p].synapses[k].weight == pv[p].synapses[k].weight
  }

  class Layer {
    var neurons: seq<Neuron>

    constructor ()
      ensures neurons == []
    {
      neurons := [];
    }

    /**
     * Feed this layer from `prev`: neuron `n` takes the activation of the
     * weighted sum of `prev`'s outputs, each weighted by that neuron's
     * synapse `n`.  `pv` is the value of `prev`; only this layer's outputs
     * are written, so `prev` and every weight keep their values.
     */
    method FeedForward(prev: Layer, act: Activator, ghost pv: LayerVal)
      requires Mirrors(prev.neurons, pv)
      requires Feeds(pv, |neurons|)
      requires forall i, j :: 0 <= i < j < |neurons| ==> neurons[i] != neurons[j]
      requires forall i, p :: 0 <= i < |neurons| && 0 <= p < |prev.neurons| ==> neurons[i] != prev.neurons[p]
      modifies neurons`outputVal
      ensures forall n :: 0 <= n < |neurons| ==> neurons[n].outputVal == act.activate(WeightedSum(pv, n, |pv|))
      ensures Mirrors(prev.neurons, pv)
    {
      var n := 0;
      while n < |neurons|
        invariant 0 <= n <= |neurons|
        invariant forall i :: 0 <= i < n ==> neurons[i].outputVal == act.activate(WeightedSum(pv, i, |pv|))
        invariant Mirrors(prev.neurons, pv)
      {
        var sum := 0.0;
        var p := 0;
        while p < |prev.neurons|
          invariant 0 <= p <= |prev.neurons|
          invariant sum == WeightedSum(pv, n, p)
        {
          sum := sum + prev.neurons[p].outputVal * prev.neurons[p].synapses[n].weight;
          p := p + 1;
        }
        neurons[n].outputVal := act.activate(sum);
        n := n + 1;
      }
    }
  }
}
