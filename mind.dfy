/**
 * The network object: a list of layers of neuron objects linked by synapse
 * objects, updated in place by `Predict`, `BackPropagate` and `Train`.
 * A ghost value `net` mirrors the heap, and every operation is stated as
 * the function of `MindSpec` it computes on that value.
 */
module Minds {
  import opened Values
  import opened Topologies
  import opened LayerSpec
  import opened MindSpec
  import opened Records
  import opened Layers
  import opened Wiring

  /** The arguments `train` and `backPropagate` take when the caller gives none. */
  const DefaultIterations: int := 1000
  const DefaultLearningRate: real := 0.2
  const DefaultMomentum: real := 0.01

  class Mind {
    const topology: Topology
    const activator: Activator
    const layers: seq<Layer>
    /** The error of the last completed back-propagation; 0.0 before the first. */
    var error: real

    /** The layer widths of `topology`. */
    ghost const widths: seq<nat>
    /** The value of the network the heap currently holds. */
    ghost var net: Net
    /** The neuron objects by layer and index; the constructor fixes them. */
    ghost const neuronAt: seq<seq<Neuron>>
    /** The synapse objects by layer, neuron and slot; the constructor fixes them. */
    ghost const synapseAt: seq<seq<seq<Synapse>>>
    /** Where each neuron sits. */
    ghost const neuronPos: map<Neuron, (nat, nat)>
    /** Where each synapse sits. */
    ghost const synapsePos: map<Synapse, (nat, nat, nat)>

    /**
     * The objects the constructor made: one synapse per neuron of the next
     * layer outside the output layer, and every neuron and synapse a
     * distinct object recorded at its position.
     */
    ghost predicate Structure()
    {
      var ws := widths;
      && 2 <= |ws|
      && |neuronAt| == |ws| && |synapseAt| == |ws|
      && (forall l {:trigger neuronAt[l]} :: 0 <= l < |ws| ==> |neuronAt[l]| == ws[l])
      && (forall l {:trigger synapseAt[l]} :: 0 <= l < |ws| ==> |synapseAt[l]| == ws[l])
      && (forall l, n {:trigger synapseAt[l][n]} :: 0 <= l < |ws| && 0 <= n < |synapseAt[l]| ==>
            |synapseAt[l][n]| == if l + 1 < |ws| then ws[l + 1] else 0)
      && (forall l, n {:trigger neuronAt[l][n]} :: 0 <= l < |ws| && 0 <= n < |neuronAt[l]| ==>
            neuronAt[l][n] in neuronPos && neuronPos[neuronAt[l][n]] == (l, n))
      && (forall nr {:trigger neuronPos[nr]} :: nr in neuronPos ==>
            neuronPos[nr].0 < |neuronAt| && neuronPos[nr].1 < |neuronAt[neuronPos[nr].0]| &&
            neuronAt[neuronPos[nr].0][neuronPos[nr].1] == nr)
      && (forall l, n, k {:trigger synapseAt[l][n][k]} ::
            0 <= l < |ws| && 0 <= n < |synapseAt[l]| && 0 <= k < |synapseAt[l][n]| ==>
            synapseAt[l][n][k] in synapsePos && synapsePos[synapseAt[l][n][k]] == (l, n, k))
      && (forall s {:trigger synapsePos[s]} :: s in synapsePos ==>
            synapsePos[s].0 < |synapseAt| && synapsePos[s].1 < |synapseAt[synapsePos[s].0]| &&
            synapsePos[s].2 < |synapseAt[synapsePos[s].0][synapsePos[s].1]| &&
            synapseAt[synapsePos[s].0][synapsePos[s].1][synapsePos[s].2] == s)
    }

    /** The layer widths `topology` names: the input width, `hiddenLayers` hidden widths, the output width. */
    ghost predicate Widths()
    {
      && |widths| == Count(topology.hiddenLayers) + 2
      && widths[0] == Count(topology.neuronsInput)
      && widths[|widths| - 1] == Count(topology.neuronsOutput)
      && forall i :: 0 < i < |widths| - 1 ==> widths[i] == Count(topology.neuronsHidden)
    }

    lemma WidthsOfTopology()
      requires widths == LayerWidths(topology)
      ensures Widths()
    {
    }

    /** The layers hold the recorded neurons, and each neuron the recorded synapses. */
    ghost predicate Layout()
      reads layers`neurons, neuronPos.Keys`synapses
    {
      && |layers| == |neuronAt|
      && (forall l {:trigger layers[l]} :: 0 <= l < |layers| ==> layers[l].neurons == neuronAt[l])
      && (forall nr {:trigger neuronPos[nr]} :: nr in neuronPos ==>
            neuronPos[nr].0 < |synapseAt| && neuronPos[nr].1 < |synapseAt[neuronPos[nr].0]| &&
            nr.synapses == synapseAt[neuronPos[nr].0][neuronPos[nr].1])
    }

    /** Every neuron's output is the output `v` records at its position. */
    ghost predicate OutputsMirror(v: Net)
      reads neuronPos.Keys`outputVal
    {
      forall nr {:trigger neuronPos[nr]} ::
        nr in neuronPos && neuronPos[nr].0 < |v| && neuronPos[nr].1 < |v[neuronPos[nr].0]| ==>
        nr.outputVal == v[neuronPos[nr].0][neuronPos[nr].1].outputVal
    }

    /** Every synapse's weight and previous change are those `v` records at its position. */
    ghost predicate SynapsesMirror(v: Net)
      reads synapsePos.Keys`weight, synapsePos.Keys`deltaOld
    {
      forall s {:trigger synapsePos[s]} ::
        && s in synapsePos && synapsePos[s].0 < |v| && synapsePos[s].1 < |v[synapsePos[s].0]|
        && synapsePos[s].2 < |v[synapsePos[s].0][synapsePos[s].1].synapses|
        ==>
        && s.weight == v[synapsePos[s].0][synapsePos[s].1].synapses[synapsePos[s].2].weight
        && s.deltaOld == v[synapsePos[s].0][synapsePos[s].1].synapses[synapsePos[s].2].deltaOld
    }

    /** The heap holds the value `v`. */
    ghost predicate Holds(v: Net)
      reads neuronPos.Keys`outputVal, synapsePos.Keys`weight, synapsePos.Keys`deltaOld
    {
      Shaped(v, widths) && OutputsMirror(v) && SynapsesMirror(v)
    }

    ghost predicate Valid()
      reads this`net, layers`neurons, neuronPos.Keys`synapses
      reads neuronPos.Keys`outputVal, synapsePos.Keys`weight, synapsePos.Keys`deltaOld
    {
      && widths == LayerWidths(topology)
      && Structure()
      && Layout()
      && Holds(net)
    }

    // ------------------------------------------------------------------
    // Construction
    // ------------------------------------------------------------------

    /**
     * The constructor: the input layer, the hidden layers and the output
     * layer, filled with new neurons, then `connectNeurons`.  `draw(l, n, k)`
     * is the uniform draw taken for synapse `k` of neuron `n` of layer `l`.
     */
    constructor (topology: Topology, activator: Activator, draw: (nat, nat, nat) -> real)
      ensures Valid()
      ensures this.topology == topology && this.activator == activator
      ensures net == Built(topology, draw) && error == 0.0
    {
      var ls;
      ghost var na, np, sa, sp;
      ls, na, np, sa, sp := Build(topology, draw);
      this.topology := topology;
      this.activator := activator;
      layers := ls;
      widths := LayerWidths(topology);
      neuronAt := na;
      neuronPos := np;
      synapseAt := sa;
      synapsePos := sp;
      net := Built(topology, draw);
      error := 0.0;
      new;
      IndexedStructure();
      BuiltStructure(topology, draw);
      BuiltWeights(draw);
    }

    /** Synapses weighted by their draws, with no previous change, hold the synapses of `Built`. */
    lemma BuiltWeights(draw: (nat, nat, nat) -> real)
      requires widths == LayerWidths(topology) && Structure()
      requires forall s {:trigger synapsePos[s]} :: s in synapsePos ==>
        && s.weight == InitialWeight(|widths|, synapsePos[s].0, draw(synapsePos[s].0, synapsePos[s].1, synapsePos[s].2))
        && s.deltaOld == 0.0
      ensures SynapsesMirror(Built(topology, draw))
    {
      var v: Net := Built(topology, draw);
      BuiltStructure(topology, draw);
      forall s | s in synapsePos && synapsePos[s].0 < |v| && synapsePos[s].1 < |v[synapsePos[s].0]|
        && synapsePos[s].2 < |v[synapsePos[s].0][synapsePos[s].1].synapses|
        ensures s.weight == v[synapsePos[s].0][synapsePos[s].1].synapses[synapsePos[s].2].weight
        ensures s.deltaOld == v[synapsePos[s].0][synapsePos[s].1].synapses[synapsePos[s].2].deltaOld
      {
        var (l, n, k) := synapsePos[s];
        assert v[l][n].synapses == InitialSynapses(widths, l, n, draw);
      }
    }

    /** The building methods' tables, of the topology's widths, are the tables `Structure` asks for. */
    lemma IndexedStructure()
      requires widths == LayerWidths(topology) && |neuronAt| == |synapseAt| == |widths|
      requires forall l :: 0 <= l < |widths| ==> |neuronAt[l]| == |synapseAt[l]| == widths[l]
      requires forall l, n :: 0 <= l < |synapseAt| && 0 <= n < |synapseAt[l]| ==>
        |synapseAt[l][n]| == if l + 1 < |neuronAt| then |neuronAt[l + 1]| else 0
      requires NeuronsIndexed(neuronAt, neuronPos) && SynapsesIndexed(synapseAt, synapsePos)
      ensures Structure()
    {
    }

    // ------------------------------------------------------------------
    // Reading the heap
    // ------------------------------------------------------------------

    lemma OutputAt(v: Net, l: nat, n: nat)
      requires Structure() && Layout() && Holds(v)
      requires l < |layers| && n < |layers[l].neurons|
      ensures l < |v| && n < |v[l]|
      ensures layers[l].neurons[n] == neuronAt[l][n]
      ensures layers[l].neurons[n].outputVal == v[l][n].outputVal
    {
      assert neuronPos[neuronAt[l][n]] == (l, n);
    }

    lemma WeightAt(v: Net, l: nat, n: nat, k: nat)
      requires Structure() && Layout() && Holds(v)
      requires l < |layers| && n < |layers[l].neurons| && k < |layers[l].neurons[n].synapses|
      ensures l < |v| && n < |v[l]| && k < |v[l][n].synapses|
      ensures layers[l].neurons[n].synapses[k] == synapseAt[l][n][k]
      ensures layers[l].neurons[n].synapses[k].weight == v[l][n].synapses[k].weight
      ensures layers[l].neurons[n].synapses[k].deltaOld == v[l][n].synapses[k].deltaOld
    {
      var nr := neuronAt[l][n];
      assert neuronPos[nr] == (l, n);
      assert synapsePos[synapseAt[l][n][k]] == (l, n, k);
    }

    /** The layer objects of layer `l` are mirrored, index for index, by `v[l]`. */
    lemma LayerMirrored(v: Net, l: nat)
      requires Structure() && Layout() && Holds(v)
      requires l < |layers|
      ensures l < |v| && Mirrors(layers[l].neurons, v[l])
    {
      var ns := layers[l].neurons;
      forall p | 0 <= p < |ns|
        ensures ns[p].outputVal == v[l][p].outputVal
        ensures |ns[p].synapses| == |v[l][p].synapses|
        ensures forall k :: 0 <= k < |v[l][p].synapses| ==> ns[p].synapses[k].weight == v[l][p].synapses[k].weight
      {
        OutputAt(v, l, p);
        assert neuronPos[neuronAt[l][p]] == (l, p);
        forall k | 0 <= k < |v[l][p].synapses|
          ensures ns[p].synapses[k].weight == v[l][p].synapses[k].weight
        {
          WeightAt(v, l, p, k);
        }
      }
    }

    /** The neurons of layer `l` are distinct objects, and none of them sits in layer `m != l`. */
    lemma LayerDistinct(l: nat, m: nat)
      requires Structure() && Layout()
      requires l < |layers| && m < |layers|
      ensures forall i, j :: 0 <= i < j < |layers[l].neurons| ==> layers[l].neurons[i] != layers[l].neurons[j]
      ensures m != l ==> forall i, p :: 0 <= i < |layers[l].neurons| && 0 <= p < |layers[m].neurons| ==>
        layers[l].neurons[i] != layers[m].neurons[p]
    {
      forall i, j | 0 <= i < j < |layers[l].neurons|
        ensures layers[l].neurons[i] != layers[l].neurons[j]
      {
        assert neuronPos[neuronAt[l][i]] == (l, i);
        assert neuronPos[neuronAt[l][j]] == (l, j);
      }
      if m != l {
        forall i, p | 0 <= i < |layers[l].neurons| && 0 <= p < |layers[m].neurons|
          ensures layers[l].neurons[i] != layers[m].neurons[p]
        {
          assert neuronPos[neuronAt[l][i]] == (l, i);
          assert neuronPos[neuronAt[m][p]] == (m, p);
        }
      }
    }

    /** Feed layer `l` from layer `l - 1`, by the layer's own feed-forward step. */
    method FeedLayerAt(l: nat, ghost v: Net)
      requires Structure() && Layout() && Holds(v)
      requires 1 <= l < |layers|
      modifies neuronAt[l]`outputVal
      ensures Feeds(v[l - 1], |v[l]|)
      ensures Holds(v[l := FeedLayer(v[l - 1], v[l], activator)])
    {
      LayerFedWritten(v, widths, l, activator);
      LayerMirrored(v, l - 1);
      LayerDistinct(l, l - 1);
      layers[l].FeedForward(layers[l - 1], activator, v[l - 1]);
      ghost var r: Net := v[l := FeedLayer(v[l - 1], v[l], activator)];
      forall nr | nr in neuronPos && neuronPos[nr].0 < |r| && neuronPos[nr].1 < |r[neuronPos[nr].0]|
        ensures nr.outputVal == r[neuronPos[nr].0][neuronPos[nr].1].outputVal
      {
        var (a, b) := neuronPos[nr];
        if a == l {
          assert nr == layers[l].neurons[b];
        } else {
          assert nr !in neuronAt[l];
        }
      }
    }

    /** Make `v`, which the heap now holds, the recorded value of the network. */
    ghost method Record(v: Net)
      requires widths == LayerWidths(topology) && Structure() && Layout() && Holds(v)
      modifies this`net
      ensures Valid() && net == v
    {
      net := v;
    }

    /** Make `v`, which the heap now holds, the recorded value of the network, and `e` the stored error. */
    method Settle(ghost v: Net, e: real)
      requires widths == LayerWidths(topology) && Structure() && Layout() && Holds(v)
      modifies this`net, this`error
      ensures Valid() && net == v && error == e
    {
      net := v;
      error := e;
    }

    // ------------------------------------------------------------------
    // Prediction
    // ------------------------------------------------------------------

    /** Write one input into the input layer. */
    method SetInput(n: nat, x: real, ghost v: Net)
      requires Structure() && Layout() && Holds(v)
      requires 0 < |layers| && n < |layers[0].neurons|
      modifies {neuronAt[0][n]}`outputVal
      ensures Holds(v[0 := v[0][n := v[0][n].(outputVal := x)]])
    {
      OutputAt(v, 0, n);
      OutputWritten(v, widths, 0, n, x);
      layers[0].neurons[n].outputVal := x;
    }

    /** `feedForward`: feed layers 1 to the last, each from the layer before it, in increasing order. */
    method FeedForward(ghost v: Net) returns (ghost r: Net)
      requires Structure() && Layout() && Holds(v)
      modifies neuronPos.Keys`outputVal
      ensures |v| >= 1 && FeedsForward(v)
      ensures Layout() && Holds(r) && r == Forward(v, activator, |v| - 1)
    {
      ShapedFeedsForward(v, widths);
      r := v;
      var l := 1;
      while l < |layers|
        invariant 1 <= l <= |layers|
        invariant Layout() && Holds(r)
        invariant r == Forward(v, activator, l - 1)
      {
        FeedLayerAt(l, r);
        assert Forward(v, activator, l) == r[l := FeedLayer(r[l - 1], r[l], activator)];
        r := r[l := FeedLayer(r[l - 1], r[l], activator)];
        l := l + 1;
      }
    }

    /** The first half of `predict`: input `i` becomes the output of input neuron `i`. */
    method WriteInputs(inputs: seq<real>, ghost v: Net) returns (ghost r: Net)
      requires Structure() && Layout() && Holds(v)
      requires |inputs| == topology.neuronsInput == widths[0]
      modifies neuronPos.Keys`outputVal
      ensures |v| >= 1 && |inputs| == |v[0]|
      ensures Layout() && Holds(r) && r == v[0 := Inject(v[0], inputs)]
    {
      r := v;
      var i := 0;
      while i < topology.neuronsInput
        invariant 0 <= i <= |inputs|
        invariant Layout() && Holds(r)
        invariant |r| == |v| && r[1..] == v[1..] && |r[0]| == |v[0]|
        invariant forall j :: 0 <= j < |r[0]| ==> r[0][j] == if j < i then v[0][j].(outputVal := inputs[j]) else v[0][j]
      {
        SetInput(i, inputs[i], r);
        r := r[0 := r[0][i := r[0][i].(outputVal := inputs[i])]];
        i := i + 1;
      }
      assert r[0] == Inject(v[0], inputs);
      forall l | 0 <= l < |r|
        ensures r[l] == v[0 := Inject(v[0], inputs)][l]
      {
        if l > 0 {
          assert r[l] == r[1..][l - 1];
        }
      }
    }

    /**
     * `predict`: an input vector whose length is not the input count throws
     * and changes nothing; otherwise the inputs are written into the input
     * layer and every later layer is fed forward in turn.
     */
    method Predict(inputs: seq<real>) returns (outcome: Outcome)
      requires Valid()
      modifies this`net, neuronPos.Keys`outputVal
      ensures Valid()
      ensures (net, outcome) == PredictStep(old(net), topology, inputs, activator)
    {
      if |inputs| != topology.neuronsInput {
        return Fail(InputCountMismatch);
      }
      ShapedFeedsForward(net, widths);
      ghost var v := WriteInputs(inputs, net);
      ghost var injected := v;
      v := FeedForward(injected);
      assert v == PredictSpec(net, inputs, activator);
      Record(v);
      outcome := Pass;
    }

    /** The older `propagate`: another name for `predict`. */
    method Propagate(inputs: seq<real>) returns (outcome: Outcome)
      requires Valid()
      modifies this`net, neuronPos.Keys`outputVal
      ensures Valid()
      ensures (net, outcome) == PredictStep(old(net), topology, inputs, activator)
    {
      outcome := Predict(inputs);
    }

    /** `getOutput`: each output neuron's value as `number_format` writes it with five decimals, in neuron order. */
    method GetOutput() returns (outputs: seq<real>)
      requires Valid()
      ensures |outputs| == |net[|net| - 1]|
      ensures forall n :: 0 <= n < |outputs| ==> outputs[n] == Round5(net[|net| - 1][n].outputVal)
    {
      WidthsOfTopology();
      var last := |layers| - 1;
      outputs := [];
      var n := 0;
      while n < topology.neuronsOutput
        invariant 0 <= n <= |net[last]|
        invariant |outputs| == n
        invariant forall i :: 0 <= i < n ==> outputs[i] == Round5(net[last][i].outputVal)
      {
        OutputAt(net, last, n);
        outputs := outputs + [Round5(layers[last].neurons[n].outputVal)];
        n := n + 1;
      }
    }

    // ------------------------------------------------------------------
    // Back-propagation
    // ------------------------------------------------------------------

    /** The output layer's deltas, read from the heap that holds `v`. */
    method OutputDeltaRow(expected: seq<real>, ghost v: Net) returns (row: seq<real>)
      requires Structure() && Layout() && Holds(v)
      requires |expected| == topology.neuronsOutput == widths[|widths| - 1]
      ensures |expected| == |v[|v| - 1]|
      ensures row == OutputDeltas(v[|v| - 1], expected, activator)
    {
      var last := |layers| - 1;
      row := [];
      var n := 0;
      while n < topology.neuronsOutput
        invariant 0 <= n <= |expected|
        invariant row == OutputDeltas(v[last], expected, activator)[..n]
      {
        OutputAt(v, last, n);
        var currentVal := layers[last].neurons[n].outputVal;
        var err := expected[n] - currentVal;
        assert activator.derivative(currentVal) * err == OutputDelta(currentVal, expected[n], activator);
        assert OutputDeltas(v[last], expected, activator)[..n + 1] ==
          OutputDeltas(v[last], expected, activator)[..n] + [OutputDelta(currentVal, expected[n], activator)];
        row := row + [activator.derivative(currentVal) * err];
        n := n + 1;
      }
    }

    /** The back-propagated sum of neuron `n` of hidden layer `h`: `next[k]` times its synapse `k`, over `k`. */
    method BackSumAt(h: nat, n: nat, next: seq<real>, ghost v: Net) returns (err: real)
      requires Structure() && Layout() && Holds(v)
      requires h + 1 < |layers| && n < |layers[h].neurons| && |next| == widths[h + 1]
      ensures n < |v[h]| && |next| <= |v[h][n].synapses|
      ensures err == BackSum(v[h][n].synapses, next, |next|)
    {
      OutputAt(v, h, n);
      err := 0.0;
      var k := 0;
      while k < |layers[h + 1].neurons|
        invariant 0 <= k <= |next|
        invariant err == BackSum(v[h][n].synapses, next, k)
      {
        WeightAt(v, h, n, k);
        err := err + next[k] * layers[h].neurons[n].synapses[k].weight;
        k := k + 1;
      }
    }

    /** The deltas of hidden layer `h`, from the deltas `next` of the layer above it. */
    method HiddenDeltaRow(h: nat, next: seq<real>, ghost v: Net) returns (row: seq<real>)
      requires Structure() && Layout() && Holds(v)
      requires 1 <= h < |widths| - 1 && Count(topology.neuronsHidden) == widths[h] && |next| == widths[h + 1]
      ensures Feeds(v[h], |next|)
      ensures row == HiddenDeltas(v[h], next, activator)
    {
      row := [];
      var n := 0;
      while n < topology.neuronsHidden
        invariant 0 <= n <= |v[h]|
        invariant row == HiddenDeltas(v[h], next, activator)[..n]
      {
        OutputAt(v, h, n);
        var currentVal := layers[h].neurons[n].outputVal;
        var err := BackSumAt(h, n, next, v);
        assert HiddenDeltas(v[h], next, activator)[..n + 1] ==
          HiddenDeltas(v[h], next, activator)[..n] + [HiddenDelta(currentVal, err, activator)];
        row := row + [activator.derivative(currentVal) * err];
        n := n + 1;
      }
    }

    /** The delta table: the output layer first, then the hidden layers from the top down. */
    method ComputeDeltas(expected: seq<real>, ghost v: Net) returns (deltas: map<nat, seq<real>>)
      requires Widths() && Structure() && Layout() && Holds(v)
      requires |expected| == topology.neuronsOutput
      ensures 2 <= |v| && FeedsForward(v) && |expected| == |v[|v| - 1]|
      ensures deltas == Deltas(v, expected, activator)
    {
      ShapedFeedsForward(v, widths);
      var last := |layers| - 1;
      var row := OutputDeltaRow(expected, v);
      deltas := map[last := row];
      // the layers `hiddenLayers` down to 1 (none when the count is not positive)
      var h: nat := last - 1;
      while h > 0
        invariant h < last
        invariant deltas == DeltasFrom(v, expected, activator, h + 1)
      {
        row := HiddenDeltaRow(h, deltas[h + 1], v);
        assert DeltasFrom(v, expected, activator, h) == deltas[h := HiddenDeltas(v[h], deltas[h + 1], activator)];
        deltas := deltas[h := row];
        h := h - 1;
      }
    }

    /** The momentum update of synapse `k` of neuron `j` of layer `l`, with gradient term `change`. */
    method AdjustAt(l: nat, j: nat, k: nat, change: real, rate: real, momentum: real, ghost v: Net)
      requires Structure() && Layout() && Holds(v)
      requires l < |layers| && j < |layers[l].neurons| && k < |layers[l].neurons[j].synapses|
      modifies {synapseAt[l][j][k]}
      ensures l < |v| && j < |v[l]| && k < |v[l][j].synapses|
      ensures Holds(v[l := v[l][j := v[l][j].(synapses := v[l][j].synapses[k := UpdatedSynapse(v[l][j].synapses[k], change, rate, momentum)])]])
    {
      WeightAt(v, l, j, k);
      SynapseWritten(v, widths, l, j, k, UpdatedSynapse(v[l][j].synapses[k], change, rate, momentum));
      ghost var syn := synapseAt[l][j][k];
      ghost var u := UpdatedSynapse(v[l][j].synapses[k], change, rate, momentum);
      ghost var r: Net := v[l := v[l][j := v[l][j].(synapses := v[l][j].synapses[k := u])]];
      layers[l].neurons[j].synapses[k].Adjust(change, rate, momentum);
      forall s | s in synapsePos && synapsePos[s].0 < |r| && synapsePos[s].1 < |r[synapsePos[s].0]| &&
          synapsePos[s].2 < |r[synapsePos[s].0][synapsePos[s].1].synapses|
        ensures s.weight == r[synapsePos[s].0][synapsePos[s].1].synapses[synapsePos[s].2].weight
        ensures s.deltaOld == r[synapsePos[s].0][synapsePos[s].1].synapses[synapsePos[s].2].deltaOld
      {
        var (a, b, c) := synapsePos[s];
        if s != syn {
          assert (a, b, c) != (l, j, k);
          assert r[a][b].synapses[c] == v[a][b].synapses[c];
          assert old(s.weight) == v[a][b].synapses[c].weight && old(s.deltaOld) == v[a][b].synapses[c].deltaOld;
          assert s.weight == old(s.weight) && s.deltaOld == old(s.deltaOld);
        } else {
          assert (a, b, c) == (l, j, k);
          assert r[a][b].synapses[c] == u;
          assert s.weight == u.weight && s.deltaOld == u.deltaOld;
        }
      }
    }

    /** Update every synapse of neuron `j` of layer `l`, from the deltas `row` of layer `l + 1`. */
    method UpdateNeuron(l: nat, j: nat, row: seq<real>, rate: real, momentum: real, ghost v: Net) returns (ghost r: Net)
      requires Structure() && Layout() && Holds(v)
      requires l + 1 < |layers| && j < |layers[l].neurons| && |row| == widths[l + 1]
      modifies synapsePos.Keys
      ensures j < |v[l]| && |row| <= |v[l][j].synapses|
      ensures Layout() && Holds(r) && r == v[l := v[l][j := UpdatedNeuron(v[l][j], row, rate, momentum)]]
    {
      OutputAt(v, l, j);
      r := v;
      var k := 0;
      UpdatedNeuronNone(v[l][j], rate, momentum);
      assert row[..0] == [];
      assert v[l][j := v[l][j]] == v[l];
      assert v[l := v[l]] == v;
      while k < |layers[l + 1].neurons|
        invariant 0 <= k <= |row|
        invariant Layout() && Holds(r)
        invariant r == v[l := v[l][j := UpdatedNeuron(v[l][j], row[..k], rate, momentum)]]
      {
        ghost var before := UpdatedNeuron(v[l][j], row[..k], rate, momentum);
        OutputAt(r, l, j);
        var change := Change(row[k], layers[l].neurons[j].outputVal);
        AdjustAt(l, j, k, change, rate, momentum, r);
        UpdatedNeuronStep(v[l][j], row, k, rate, momentum);
        ghost var after := before.(synapses := before.synapses[k := UpdatedSynapse(before.synapses[k], change, rate, momentum)]);
        assert after == UpdatedNeuron(v[l][j], row[..k + 1], rate, momentum);
        NeuronReplaced(v, l, j, before, after);
        r := v[l := v[l][j := after]];
        k := k + 1;
      }
      assert row[..k] == row;
    }

    /** Handle layer `l` of the update pass: update the synapses of every neuron of layer `l - 1`. */
    method UpdateLayer(l: nat, row: seq<real>, rate: real, momentum: real, ghost v: Net) returns (ghost r: Net)
      requires Structure() && Layout() && Holds(v)
      requires 1 <= l < |layers| && |row| == widths[l]
      modifies synapsePos.Keys
      ensures Feeds(v[l - 1], |row|)
      ensures Layout() && Holds(r) && r == v[l - 1 := UpdatedLayer(v[l - 1], row, rate, momentum)]
    {
      ShapedFeedsForward(v, widths);
      r := v;
      var j := 0;
      UpdatedLayerEnds(v[l - 1], row, rate, momentum);
      assert v[l - 1 := v[l - 1]] == v;
      while j < |layers[l - 1].neurons|
        invariant 0 <= j <= |v[l - 1]|
        invariant Layout() && Holds(r)
        invariant r == v[l - 1 := UpdatedLayerUpTo(v[l - 1], row, rate, momentum, j)]
      {
        ghost var before := UpdatedLayerUpTo(v[l - 1], row, rate, momentum, j);
        r := UpdateNeuron(l - 1, j, row, rate, momentum, r);
        UpdatedLayerStep(v[l - 1], row, rate, momentum, j);
        LayerReplaced(v, l - 1, before, before[j := UpdatedNeuron(v[l - 1][j], row, rate, momentum)]);
        j := j + 1;
      }
    }

    /**
     * The update pass of `backPropagate`: layers `hiddenLayers + 1` down to
     * 1, each moving the synapses that lead into it by its delta row.
     */
    method UpdateWeights(d: map<nat, seq<real>>, rate: real, momentum: real, ghost v: Net) returns (ghost r: Net)
      requires Widths() && Structure() && Layout() && Holds(v)
      requires RowsFor(v, d, 0, topology.hiddenLayers + 1)
      modifies synapsePos.Keys
      ensures FeedsForward(v) && topology.hiddenLayers + 1 < |v|
      ensures Layout() && Holds(r) && r == UpdatedNet(v, d, rate, momentum, 0, topology.hiddenLayers + 1)
    {
      ShapedFeedsForward(v, widths);
      var top := topology.hiddenLayers + 1;
      // the layers `hiddenLayers + 1` down to 1 (none when the count is negative)
      var l: nat := if top > 0 then top else 0;
      UpdatedNetIdle(v, d, rate, momentum, l, top);
      r := v;
      while l > 0
        invariant l <= top || l == 0
        invariant Layout() && Holds(r)
        invariant r == UpdatedNet(v, d, rate, momentum, l, top)
      {
        UpdatedNetStep(v, d, rate, momentum, l, top);
        r := UpdateLayer(l, d[l], rate, momentum, r);
        l := l - 1;
      }
    }

    /** `0.5 * pow(expected[k] - output[k], 2)` summed over the output neurons, read from the heap that holds `v`. */
    method HalfSquaredErrorOf(expected: seq<real>, ghost v: Net) returns (e: real)
      requires Structure() && Layout() && Holds(v)
      requires |expected| == widths[|widths| - 1]
      ensures |expected| == |v[|v| - 1]|
      ensures e == HalfSquaredError(expected, v[|v| - 1], |expected|)
    {
      var last := |layers| - 1;
      e := 0.0;
      var k := 0;
      while k < |expected|
        invariant 0 <= k <= |expected|
        invariant e == HalfSquaredError(expected, v[last], k)
      {
        OutputAt(v, last, k);
        e := e + 0.5 * Pow(expected[k] - layers[last].neurons[k].outputVal, 2);
        k := k + 1;
      }
    }

    /**
     * `backPropagate`: a target vector whose length is not the output count
     * throws and changes nothing; otherwise the deltas are computed from the
     * current outputs and weights, every synapse into layers
     * `hiddenLayers + 1` down to 1 takes the momentum update, and the
     * half squared error of the outputs is stored and returned.
     */
    method BackPropagate(expected: seq<real>, learningRate: real := DefaultLearningRate, momentum: real := DefaultMomentum) returns (result: Result<real>)
      requires Valid()
      modifies this`net, this`error, synapsePos.Keys
      ensures Valid()
      ensures (net, result) == BackPropStep(old(net), topology, expected, learningRate, momentum, activator)
      ensures error == if result.Ok? then result.value else old(error)
    {
      if |expected| != topology.neuronsOutput {
        return Err(TargetCountMismatch);
      }
      BackPropStepOk(net, topology, expected, learningRate, momentum, activator);
      var e := BackPropagateChecked(expected, learningRate, momentum);
      result := Ok(e);
    }

    /** `backPropagate` past its check of the target count: the update pass, then the error. */
    method BackPropagateChecked(expected: seq<real>, learningRate: real, momentum: real) returns (e: real)
      requires Valid() && |expected| == topology.neuronsOutput
      requires 2 <= |net| && FeedsForward(net) && |expected| == |net[|net| - 1]| && topology.hiddenLayers + 1 < |net|
      modifies this`net, this`error, synapsePos.Keys
      ensures Valid()
      ensures (net, e) == Backpropagated(old(net), expected, learningRate, momentum, activator, topology.hiddenLayers + 1)
      ensures error == e
    {
      WidthsOfTopology();
      var deltas := ComputeDeltas(expected, net);
      BackpropagatedParts(net, expected, learningRate, momentum, activator, topology.hiddenLayers + 1);
      ghost var v := UpdateWeights(deltas, learningRate, momentum, net);
      e := HalfSquaredErrorOf(expected, v);
      Settle(v, e);
    }

    // ------------------------------------------------------------------
    // Training
    // ------------------------------------------------------------------

    /** One lesson of `train`: predict from its inputs, then back-propagate its targets. */
    method Learn(lesson: Lesson, learningRate: real, momentum: real) returns (outcome: Outcome)
      requires Valid()
      modifies this`net, this`error, neuronPos.Keys`outputVal, synapsePos.Keys
      ensures Valid()
      ensures (net, outcome) == TrainPass(old(net), topology, [lesson], learningRate, momentum, activator)
      ensures error == PassError(old(net), topology, [lesson], learningRate, momentum, activator, old(error))
    {
      TrainOne(net, topology, lesson, learningRate, momentum, activator);
      PassErrorOne(net, topology, lesson, learningRate, momentum, activator, error);
      var (inputs, targets) := lesson;
      outcome := Predict(inputs);
      if outcome.Fail? {
        return;
      }
      var result := BackPropagate(targets, learningRate, momentum);
      if result.Err? {
        outcome := Fail(result.reason);
      }
    }

    /** One pass of `train`: predict and back-propagate each lesson in turn; the first exception ends it. */
    method TrainOnce(lessons: seq<Lesson>, learningRate: real, momentum: real) returns (outcome: Outcome)
      requires Valid()
      modifies this`net, this`error, neuronPos.Keys`outputVal, synapsePos.Keys
      ensures Valid()
      ensures (net, outcome) == TrainPass(old(net), topology, lessons, learningRate, momentum, activator)
      ensures error == PassError(old(net), topology, lessons, learningRate, momentum, activator, old(error))
    {
      var p := 0;
      while p < |lessons|
        invariant 0 <= p <= |lessons|
        invariant Valid()
        invariant TrainPass(old(net), topology, lessons[..p], learningRate, momentum, activator) == (net, Pass)
        invariant error == PassError(old(net), topology, lessons[..p], learningRate, momentum, activator, old(error))
      {
        TrainPassExtend(old(net), topology, lessons, p, learningRate, momentum, activator);
        PassErrorExtend(old(net), topology, lessons, p, learningRate, momentum, activator, old(error));
        outcome := Learn(lessons[p], learningRate, momentum);
        if outcome.Fail? {
          TrainPassStops(old(net), topology, lessons, p + 1, learningRate, momentum, activator);
          PassErrorStops(old(net), topology, lessons, p + 1, learningRate, momentum, activator, old(error));
          return;
        }
        p := p + 1;
      }
      assert lessons[..p] == lessons;
      outcome := Pass;
    }

    /**
     * `train`: `iterations` passes over the lessons (none when it is zero or
     * negative); an exception ends the training with whatever the lessons
     * before it changed.
     */
    method Train(lessons: seq<Lesson>, iterations: int := DefaultIterations, learningRate: real := DefaultLearningRate, momentum: real := DefaultMomentum) returns (outcome: Outcome)
      requires Valid()
      modifies this`net, this`error, neuronPos.Keys`outputVal, synapsePos.Keys
      ensures Valid()
      ensures (net, outcome) == TrainRounds(old(net), topology, lessons, Count(iterations), learningRate, momentum, activator)
      ensures error == RoundsError(old(net), topology, lessons, Count(iterations), learningRate, momentum, activator, old(error))
    {
      var i := 0;
      while i < iterations
        invariant 0 <= i <= Count(iterations)
        invariant Valid()
        invariant TrainRounds(old(net), topology, lessons, i, learningRate, momentum, activator) == (net, Pass)
        invariant error == RoundsError(old(net), topology, lessons, i, learningRate, momentum, activator, old(error))
      {
        TrainRoundsNext(old(net), topology, lessons, i, learningRate, momentum, activator, old(error));
        outcome := TrainOnce(lessons, learningRate, momentum);
        if outcome.Fail? {
          TrainRoundsStuck(old(net), topology, lessons, i + 1, Count(iterations), learningRate, momentum, activator);
          RoundsErrorStuck(old(net), topology, lessons, i + 1, Count(iterations), learningRate, momentum, activator, old(error));
          return;
        }
        i := i + 1;
      }
      outcome := Pass;
    }
  }
}
