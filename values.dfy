/**
 * Value views of the network's records, the activation capability, and the
 * error outcomes of the network's operations.
 */
module Values {

  /**
   * An activation function and its derivative.  The network calls
   * `derivative` on a neuron's stored output, so `derivative` is the
   * derivative expressed in terms of the activated value.
   */
  datatype Activator = Activator(activate: real -> real, derivative: real -> real)

  /** A synapse's weight and the gradient term `change` of its last update (`deltaOld`). */
  datatype SynapseVal = SynapseVal(weight: real, deltaOld: real)

  /** A neuron's output and its outgoing synapses; `synapses[k]` leads to neuron `k` of the next layer. */
  datatype NeuronVal = NeuronVal(outputVal: real, synapses: seq<SynapseVal>)

  type LayerVal = seq<NeuronVal>

  /** The layers in order: index 0 is the input layer, the last index the output layer. */
  type Net = seq<LayerVal>

  /** The two exceptions the network throws on a length mismatch. */
  datatype Failure = InputCountMismatch | TargetCountMismatch

  datatype Outcome = Pass | Fail(reason: Failure)

  datatype Result<T> = Ok(value: T) | Err(reason: Failure)

  /**
   * `net` has the layer widths `ws`; each neuron of a layer other than the
   * last has exactly one synapse per neuron of the next layer, and the
   * neurons of the last layer have none.
   */
  predicate Shaped(net: Net, ws: seq<nat>)
  {
    && |net| == |ws|
    && (forall l :: 0 <= l < |net| ==> |net[l]| == ws[l])
    && (forall l, n :: 0 <= l < |net| && 0 <= n < |net[l]| ==>
          |net[l][n].synapses| == if l + 1 < |net| then ws[l + 1] else 0)
  }

  /** `a` and `b` have the same layers, neurons and synapses, whatever their values. */
  predicate SameShape(a: Net, b: Net)
  {
    && |a| == |b|
    && (forall l :: 0 <= l < |a| ==> |a[l]| == |b[l]|)
    && (forall l, n :: 0 <= l < |a| && 0 <= n < |a[l]| ==> |a[l][n].synapses| == |b[l][n].synapses|)
  }

  /** `a` and `b` agree on every synapse (weight and previous change); outputs may differ. */
  predicate SameSynapses(a: Net, b: Net)
  {
    && |a| == |b|
    && (forall l :: 0 <= l < |a| ==> |a[l]| == |b[l]|)
    && (forall l, n :: 0 <= l < |a| && 0 <= n < |a[l]| ==> a[l][n].synapses == b[l][n].synapses)
  }

  /** `a` and `b` agree on every neuron output; synapses may differ. */
  predicate SameOutputs(a: Net, b: Net)
  {
    && |a| == |b|
    && (forall l :: 0 <= l < |a| ==> |a[l]| == |b[l]|)
    && (forall l, n :: 0 <= l < |a| && 0 <= n < |a[l]| ==> a[l][n].outputVal == b[l][n].outputVal)
  }

  /** The outputs of a layer, in neuron order. */
  function Outputs(layer: LayerVal): (r: seq<real>)
    ensures |r| == |layer|
    ensures forall n :: 0 <= n < |layer| ==> r[n] == layer[n].outputVal
  {
    seq(|layer|, n requires 0 <= n < |layer| => layer[n].outputVal)
  }

  /** Shape is kept by any network that agrees with a shaped one on its synapses. */
  lemma ShapedBySynapses(a: Net, b: Net, ws: seq<nat>)
    requires Shaped(a, ws) && SameSynapses(a, b)
    ensures Shaped(b, ws)
  {
  }

  /** Shape is kept by any network with the same layers, neurons and synapse counts. */
  lemma ShapedBySameShape(a: Net, b: Net, ws: seq<nat>)
    requires Shaped(a, ws) && SameShape(a, b)
    ensures Shaped(b, ws)
  {
  }
}
