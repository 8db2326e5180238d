/**
 * What one layer's feed-forward step computes, on values: neuron `n` of the
 * layer takes the activation of the weighted sum of the previous layer's
 * outputs, each weighted by that neuron's synapse `n`.
 */
module LayerSpec {
  import opened Values

  /** Every neuron of `prev` has a synapse for each of the `width` neurons of the next layer. */
  predicate Feeds(prev: LayerVal, width: nat)
  {
    forall p :: 0 <= p < |prev| ==> width <= |prev[p].synapses|
  }

  /**
   * The sum over the first `upto` neurons `p` of `prev` of
   * `outputVal(p) * weight(synapse n of p)`, accumulated in index order.
   */
  function WeightedSum(prev: LayerVal, n: nat, upto: nat): real
    requires upto <= |prev|
    requires Feeds(prev, n + 1)
    decreases upto
  {
    if upto == 0 then 0.0
    else WeightedSum(prev, n, upto - 1) + prev[upto - 1].outputVal * prev[upto - 1].synapses[n].weight
  }

  /** Neuron `n` of `cur` after it has been fed from `prev`. */
  function Fed(prev: LayerVal, cur: LayerVal, n: nat, act: Activator): NeuronVal
    requires n < |cur| && Feeds(prev, |cur|)
  {
    cur[n].(outputVal := act.activate(WeightedSum(prev, n, |prev|)))
  }

  /** The layer `cur` after every one of its neurons has been fed from `prev`. */
  function FeedLayer(prev: LayerVal, cur: LayerVal, act: Activator): (r: LayerVal)
    requires Feeds(prev, |cur|)
    ensures |r| == |cur|
    ensures forall n :: 0 <= n < |cur| ==> r[n] == Fed(prev, cur, n, act)
  {
    seq(|cur|, n requires 0 <= n < |cur| => Fed(prev, cur, n, act))
  }

  /**
   * Feeding a layer writes outputs only: every synapse of the layer stays as
   * it was, and each output is the activation of its weighted sum.
   */
  lemma FeedLayerFrame(prev: LayerVal, cur: LayerVal, act: Activator)
    requires Feeds(prev, |cur|)
    ensures forall n :: 0 <= n < |cur| ==>
      && FeedLayer(prev, cur, act)[n].synapses == cur[n].synapses
      && FeedLayer(prev, cur, act)[n].outputVal == act.activate(WeightedSum(prev, n, |prev|))
  {
  }

  /** A sum over an empty prefix is 0.0, so a layer fed from an empty layer holds `f(0.0)` everywhere. */
  lemma FeedFromEmptyLayer(cur: LayerVal, act: Activator)
    ensures forall n :: 0 <= n < |cur| ==> FeedLayer([], cur, act)[n].outputVal == act.activate(0.0)
  {
  }

  /** Feed the neurons of `cur` one at a time, in the order the indices appear in `order`. */
  function FeedInOrder(prev: LayerVal, cur: LayerVal, order: seq<nat>, act: Activator): (r: LayerVal)
    requires Feeds(prev, |cur|)
    requires forall i :: 0 <= i < |order| ==> order[i] < |cur|
    ensures |r| == |cur|
    decreases |order|
  {
    if order == [] then cur
    else
      var before := FeedInOrder(prev, cur, order[..|order| - 1], act);
      var n := order[|order| - 1];
      before[n := Fed(prev, cur, n, act)]
  }

  /** After feeding in `order`, a neuron holds its fed value if its index occurs in `order`, else its old value. */
  lemma {:induction false} FeedInOrderAt(prev: LayerVal, cur: LayerVal, order: seq<nat>, act: Activator, n: nat)
    requires Feeds(prev, |cur|)
    requires forall i :: 0 <= i < |order| ==> order[i] < |cur|
    requires n < |cur|
    ensures FeedInOrder(prev, cur, order, act)[n] == if n in order then Fed(prev, cur, n, act) else cur[n]
    decreases |order|
  {
    if order != [] {
      var init := order[..|order| - 1];
      FeedInOrderAt(prev, cur, init, act, n);
      assert n in order <==> n in init || n == order[|order| - 1] by {
        assert order == init + [order[|order| - 1]];
      }
    }
  }

  /**
   * Each neuron's new output depends only on the previous layer, so feeding
   * the neurons in any order that visits every index gives the same layer as
   * feeding them in index order.
   */
  lemma {:induction false} FeedOrderIrrelevant(prev: LayerVal, cur: LayerVal, order: seq<nat>, act: Activator)
    requires Feeds(prev, |cur|)
    requires forall i :: 0 <= i < |order| ==> order[i] < |cur|
    requires forall n :: 0 <= n < |cur| ==> n in order
    ensures FeedInOrder(prev, cur, order, act) == FeedLayer(prev, cur, act)
  {
    var r := FeedInOrder(prev, cur, order, act);
    forall n | 0 <= n < |cur|
      ensures r[n] == FeedLayer(prev, cur, act)[n]
    {
      FeedInOrderAt(prev, cur, order, act, n);
    }
  }

  /**
   * The regression case of the layer test: two previous neurons with output
   * 1 and synapse weights [0.3, 0.2] and [0.6, 0.4] give the sums 0.9 and 0.6
   * (under the hyperbolic tangent these become 0.716 and 0.537).
   */
  lemma {:induction false} FixtureSums()
    ensures var prev := [NeuronVal(1.0, [SynapseVal(0.3, 0.0), SynapseVal(0.2, 0.0)]),
                         NeuronVal(1.0, [SynapseVal(0.6, 0.0), SynapseVal(0.4, 0.0)])];
            WeightedSum(prev, 0, 2) == 0.9 && WeightedSum(prev, 1, 2) == 0.6
  {
  }
}
