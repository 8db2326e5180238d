/**
 * How the network's objects are made and wired: the layers of new neurons
 * the constructor builds, and `connectNeurons`, which gives every neuron
 * outside the output layer one new synapse per neuron of the next layer.
 * Ghost tables record where each object sits, so that the network can tell
 * its objects apart.
 */
module Wiring {
  import opened Topologies
  import opened MindSpec
  import opened Records
  import opened Layers

  /** `neuronAt` and `neuronPos` agree: every neuron sits at exactly one position. */
  ghost predicate NeuronsIndexed(neuronAt: seq<seq<Neuron>>, neuronPos: map<Neuron, (nat, nat)>)
  {
    && (forall l, n {:trigger neuronAt[l][n]} :: 0 <= l < |neuronAt| && 0 <= n < |neuronAt[l]| ==>
          neuronAt[l][n] in neuronPos && neuronPos[neuronAt[l][n]] == (l, n))
    && (forall nr {:trigger neuronPos[nr]} :: nr in neuronPos ==>
          neuronPos[nr].0 < |neuronAt| && neuronPos[nr].1 < |neuronAt[neuronPos[nr].0]| &&
          neuronAt[neuronPos[nr].0][neuronPos[nr].1] == nr)
  }

  /** `synapseAt` and `synapsePos` agree: every synapse sits at exactly one position. */
  ghost predicate SynapsesIndexed(synapseAt: seq<seq<seq<Synapse>>>, synapsePos: map<Synapse, (nat, nat, nat)>)
  {
    && (forall l, n, k {:trigger synapseAt[l][n][k]} ::
          0 <= l < |synapseAt| && 0 <= n < |synapseAt[l]| && 0 <= k < |synapseAt[l][n]| ==>
          synapseAt[l][n][k] in synapsePos && synapsePos[synapseAt[l][n][k]] == (l, n, k))
    && (forall s {:trigger synapsePos[s]} :: s in synapsePos ==>
          synapsePos[s].0 < |synapseAt| && synapsePos[s].1 < |synapseAt[synapsePos[s].0]| &&
          synapsePos[s].2 < |synapseAt[synapsePos[s].0][synapsePos[s].1]| &&
          synapseAt[synapsePos[s].0][synapsePos[s].1][synapsePos[s].2] == s)
  }

  /** The positions of a row of distinct synapses that becomes the synapses of neuron `n` of layer `l`. */
  ghost function RowPositions(l: nat, n: nat, added: seq<Synapse>): (r: map<Synapse, (nat, nat, nat)>)
    requires forall i, j :: 0 <= i < j < |added| ==> added[i] != added[j]
    ensures forall k :: 0 <= k < |added| ==> added[k] in r && r[added[k]] == (l, n, k)
    ensures forall s :: s in r ==> r[s].0 == l && r[s].1 == n && r[s].2 < |added| && added[r[s].2] == s
  {
    map k | 0 <= k < |added| :: added[k] := (l, n, k)
  }

  /** Recording a row of new, distinct synapses at an empty position keeps the synapse tables in agreement. */
  lemma IndexRow(synapseAt: seq<seq<seq<Synapse>>>, synapsePos: map<Synapse, (nat, nat, nat)>, l: nat, n: nat, added: seq<Synapse>)
    requires SynapsesIndexed(synapseAt, synapsePos)
    requires l < |synapseAt| && n < |synapseAt[l]| && synapseAt[l][n] == []
    requires forall k :: 0 <= k < |added| ==> added[k] !in synapsePos
    requires forall i, j :: 0 <= i < j < |added| ==> added[i] != added[j]
    ensures SynapsesIndexed(synapseAt[l := synapseAt[l][n := added]], synapsePos + RowPositions(l, n, added))
  {
    var positions := RowPositions(l, n, added);
    var at := synapseAt[l := synapseAt[l][n := added]];
    var pos := synapsePos + positions;
    forall i, p, k | 0 <= i < |at| && 0 <= p < |at[i]| && 0 <= k < |at[i][p]|
      ensures at[i][p][k] in pos && pos[at[i][p][k]] == (i, p, k)
    {
      if (i, p) != (l, n) {
        assert at[i][p][k] == synapseAt[i][p][k];
        assert synapseAt[i][p][k] in synapsePos;
      }
    }
    forall s | s in pos
      ensures pos[s].0 < |at| && pos[s].1 < |at[pos[s].0]| && pos[s].2 < |at[pos[s].0][pos[s].1]|
      ensures at[pos[s].0][pos[s].1][pos[s].2] == s
    {
      if s !in positions {
        assert (synapsePos[s].0, synapsePos[s].1) != (l, n);
      }
    }
  }

  /** The positions of a row of distinct neurons that becomes layer `l`. */
  ghost function LayerPositions(l: nat, row: seq<Neuron>): (r: map<Neuron, (nat, nat)>)
    requires forall i, j :: 0 <= i < j < |row| ==> row[i] != row[j]
    ensures forall n :: 0 <= n < |row| ==> row[n] in r && r[row[n]] == (l, n)
    ensures forall nr :: nr in r ==> r[nr].0 == l && r[nr].1 < |row| && row[r[nr].1] == nr
  {
    map n | 0 <= n < |row| :: row[n] := (l, n)
  }

  /** Recording a row of new, distinct neurons as the next layer keeps the neuron tables in agreement. */
  lemma IndexLayer(neuronAt: seq<seq<Neuron>>, neuronPos: map<Neuron, (nat, nat)>, row: seq<Neuron>)
    requires NeuronsIndexed(neuronAt, neuronPos)
    requires forall n :: 0 <= n < |row| ==> row[n] !in neuronPos
    requires forall i, j :: 0 <= i < j < |row| ==> row[i] != row[j]
    ensures NeuronsIndexed(neuronAt + [row], neuronPos + LayerPositions(|neuronAt|, row))
  {
    var at := neuronAt + [row];
    var added := LayerPositions(|neuronAt|, row);
    var pos := neuronPos + added;
    forall l, n | 0 <= l < |at| && 0 <= n < |at[l]|
      ensures at[l][n] in pos && pos[at[l][n]] == (l, n)
    {
      if l < |neuronAt| {
        assert at[l][n] == neuronAt[l][n];
        assert neuronAt[l][n] !in added;
      }
    }
  }

  // ----------------------------------------------------------------------
  // Layers of new neurons
  // ----------------------------------------------------------------------

  /** A new layer of `count` new neurons, none when `count` is below one; each neuron has output 0.0 and no synapses. */
  method NewLayer(count: int) returns (layer: Layer)
    ensures fresh(layer) && |layer.neurons| == Count(count)
    ensures forall n :: 0 <= n < |layer.neurons| ==>
      fresh(layer.neurons[n]) && layer.neurons[n].outputVal == 0.0 && layer.neurons[n].synapses == []
    ensures forall i, j :: 0 <= i < j < |layer.neurons| ==> layer.neurons[i] != layer.neurons[j]
  {
    layer := new Layer();
    var i := 0;
    while i < count
      invariant i == |layer.neurons| <= Count(count)
      invariant fresh(layer)
      invariant forall n :: 0 <= n < |layer.neurons| ==>
        fresh(layer.neurons[n]) && layer.neurons[n].outputVal == 0.0 && layer.neurons[n].synapses == []
      invariant forall i, j :: 0 <= i < j < |layer.neurons| ==> layer.neurons[i] != layer.neurons[j]
    {
      var nr := new Neuron();
      layer.neurons := layer.neurons + [nr];
      i := i + 1;
    }
  }

  /** Append a new layer of `count` new neurons, recording where each neuron sits. */
  method AddLayer(layers: seq<Layer>, ghost neuronAt: seq<seq<Neuron>>, ghost neuronPos: map<Neuron, (nat, nat)>, count: int)
    returns (layers': seq<Layer>, ghost neuronAt': seq<seq<Neuron>>, ghost neuronPos': map<Neuron, (nat, nat)>)
    requires |layers| == |neuronAt| && NeuronsIndexed(neuronAt, neuronPos)
    requires forall l :: 0 <= l < |layers| ==> layers[l].neurons == neuronAt[l]
    ensures |layers'| == |neuronAt'| == |layers| + 1
    ensures neuronAt'[..|layers|] == neuronAt && |neuronAt'[|layers|]| == Count(count)
    ensures forall l :: 0 <= l < |layers'| ==> layers'[l].neurons == neuronAt'[l]
    ensures NeuronsIndexed(neuronAt', neuronPos')
    ensures forall nr :: nr in neuronPos' && nr !in neuronPos ==> fresh(nr) && nr.outputVal == 0.0 && nr.synapses == []
    ensures neuronPos.Keys <= neuronPos'.Keys
  {
    var layer := NewLayer(count);
    forall n | 0 <= n < |layer.neurons|
      ensures layer.neurons[n] !in neuronPos
    {
    }
    IndexLayer(neuronAt, neuronPos, layer.neurons);
    layers' := layers + [layer];
    neuronAt' := neuronAt + [layer.neurons];
    neuronPos' := neuronPos + LayerPositions(|layers|, layer.neurons);
  }

  /**
   * The layers the constructor builds: the input layer, `hiddenLayers`
   * hidden layers and the output layer, of the widths the topology names.
   */
  method NewLayers(t: Topology) returns (layers: seq<Layer>, ghost neuronAt: seq<seq<Neuron>>, ghost neuronPos: map<Neuron, (nat, nat)>)
    ensures |layers| == |neuronAt| == |LayerWidths(t)|
    ensures forall l :: 0 <= l < |layers| ==> layers[l].neurons == neuronAt[l] && |neuronAt[l]| == LayerWidths(t)[l]
    ensures NeuronsIndexed(neuronAt, neuronPos)
    ensures forall nr :: nr in neuronPos ==> fresh(nr) && nr.outputVal == 0.0 && nr.synapses == []
  {
    var ws := LayerWidths(t);
    layers, neuronAt, neuronPos := AddLayer([], [], map[], t.neuronsInput);
    var h := 0;
    while h < t.hiddenLayers
      invariant h == |layers| - 1 && h <= Count(t.hiddenLayers)
      invariant |layers| == |neuronAt|
      invariant forall l :: 0 <= l < |layers| ==> layers[l].neurons == neuronAt[l] && |neuronAt[l]| == ws[l]
      invariant NeuronsIndexed(neuronAt, neuronPos)
      invariant forall nr :: nr in neuronPos ==> fresh(nr) && nr.outputVal == 0.0 && nr.synapses == []
    {
      layers, neuronAt, neuronPos := AddLayer(layers, neuronAt, neuronPos, t.neuronsHidden);
      h := h + 1;
    }
    layers, neuronAt, neuronPos := AddLayer(layers, neuronAt, neuronPos, t.neuronsOutput);
  }

  // ----------------------------------------------------------------------
  // Connecting the layers
  // ----------------------------------------------------------------------

  /**
   * Give `nr`, neuron `n` of layer `l`, `count` new synapses; the one in
   * slot `k` weighs `randomBetween(min, max)` on the draw `draw(l, n, k)` and
   * has no previous change.  The synapse tables record the new row.
   */
  method ConnectNeuron(nr: Neuron, l: nat, n: nat, count: nat, min: real, max: real, draw: (nat, nat, nat) -> real,
                       ghost neuronAt: seq<seq<Neuron>>, ghost neuronPos: map<Neuron, (nat, nat)>,
                       ghost synapseAt: seq<seq<seq<Synapse>>>, ghost synapsePos: map<Synapse, (nat, nat, nat)>)
    returns (ghost synapseAt': seq<seq<seq<Synapse>>>, ghost synapsePos': map<Synapse, (nat, nat, nat)>)
    requires NeuronsIndexed(neuronAt, neuronPos) && SynapsesIndexed(synapseAt, synapsePos)
    requires |synapseAt| == |neuronAt| && forall i :: 0 <= i < |neuronAt| ==> |synapseAt[i]| == |neuronAt[i]|
    requires l < |synapseAt| && n < |synapseAt[l]| && neuronAt[l][n] == nr && synapseAt[l][n] == []
    requires forall nr' {:trigger neuronPos[nr']} :: nr' in neuronPos ==>
      nr'.synapses == synapseAt[neuronPos[nr'].0][neuronPos[nr'].1]
    modifies nr`synapses
    ensures |nr.synapses| == count && synapseAt' == synapseAt[l := synapseAt[l][n := nr.synapses]]
    ensures forall nr' {:trigger neuronPos[nr']} :: nr' in neuronPos ==>
      nr'.synapses == synapseAt'[neuronPos[nr'].0][neuronPos[nr'].1]
    ensures SynapsesIndexed(synapseAt', synapsePos')
    ensures forall s {:trigger synapsePos[s]} :: s in synapsePos ==> s in synapsePos' && synapsePos'[s] == synapsePos[s]
    ensures forall s {:trigger synapsePos'[s]} :: s in synapsePos' && s !in synapsePos ==>
      && synapsePos'[s].0 == l
      && s.weight == RandomBetween(min, max, draw(synapsePos'[s].0, synapsePos'[s].1, synapsePos'[s].2))
      && s.deltaOld == 0.0
  {
    assert nr in neuronPos && neuronPos[nr] == (l, n);
    ghost var added: seq<Synapse> := [];
    var s := 0;
    while s < count
      invariant s == |added| <= count
      invariant nr.synapses == added
      invariant forall k :: 0 <= k < s ==>
        && fresh(added[k])
        && added[k].weight == RandomBetween(min, max, draw(l, n, k))
        && added[k].deltaOld == 0.0
      invariant forall i, j :: 0 <= i < j < s ==> added[i] != added[j]
    {
      var synapse := new Synapse(RandomBetween(min, max, draw(l, n, |nr.synapses|)));
      nr.synapses := nr.synapses + [synapse];
      added := added + [synapse];
      s := s + 1;
    }
    forall k | 0 <= k < |added|
      ensures added[k] !in synapsePos
    {
    }
    IndexRow(synapseAt, synapsePos, l, n, added);
    synapsePos' := synapsePos + RowPositions(l, n, added);
    synapseAt' := synapseAt[l := synapseAt[l][n := added]];
  }

  /**
   * `now` keeps every position recorded in `start`; each synapse it adds
   * leaves layer `l`, weighs `randomBetween(min, max)` on its own draw and
   * has no previous change.
   */
  ghost predicate Extends(start: map<Synapse, (nat, nat, nat)>, now: map<Synapse, (nat, nat, nat)>,
                          l: nat, min: real, max: real, draw: (nat, nat, nat) -> real)
    reads now.Keys
  {
    && (forall s {:trigger start[s]} :: s in start ==> s in now && now[s] == start[s])
    && (forall s {:trigger now[s]} :: s in now && s !in start ==>
          && now[s].0 == l
          && s.weight == RandomBetween(min, max, draw(now[s].0, now[s].1, now[s].2))
          && s.deltaOld == 0.0)
  }

  /**
   * `now` is `start` with the first `n` neurons of layer `l` given rows of
   * `count` synapses, the rest of that layer and every other layer as before.
   */
  ghost predicate RowsFilled(start: seq<seq<seq<Synapse>>>, now: seq<seq<seq<Synapse>>>, l: nat, n: nat, count: nat)
  {
    && |now| == |start| && (forall i :: 0 <= i < |start| ==> |now[i]| == |start[i]|)
    && l < |start| && n <= |start[l]|
    && (forall i :: 0 <= i < |start| && i != l ==> now[i] == start[i])
    && (forall p :: n <= p < |now[l]| ==> now[l][p] == [])
    && (forall p :: 0 <= p < n ==> |now[l][p]| == count)
  }

  /** Filling the next neuron's row extends `RowsFilled` by one neuron. */
  lemma RowsFilledStep(start: seq<seq<seq<Synapse>>>, now: seq<seq<seq<Synapse>>>, l: nat, n: nat, count: nat, row: seq<Synapse>)
    requires RowsFilled(start, now, l, n, count) && n < |start[l]| && |row| == count
    ensures RowsFilled(start, now[l := now[l][n := row]], l, n + 1, count)
  {
  }

  /** Connecting one more neuron of layer `l` keeps `Extends` from the layer's start. */
  lemma ExtendsStep(start: map<Synapse, (nat, nat, nat)>, before: map<Synapse, (nat, nat, nat)>,
                    after: map<Synapse, (nat, nat, nat)>, l: nat, min: real, max: real, draw: (nat, nat, nat) -> real)
    requires Extends(start, before, l, min, max, draw)
    requires forall s {:trigger before[s]} :: s in before ==> s in after && after[s] == before[s]
    requires forall s {:trigger after[s]} :: s in after && s !in before ==>
      && after[s].0 == l
      && s.weight == RandomBetween(min, max, draw(after[s].0, after[s].1, after[s].2))
      && s.deltaOld == 0.0
    ensures Extends(start, after, l, min, max, draw)
  {
    forall s | s in after && s !in start
      ensures after[s].0 == l
      ensures s.weight == RandomBetween(min, max, draw(after[s].0, after[s].1, after[s].2))
    {
      if s in before {
        assert after[s] == before[s];
      }
    }
  }

  /**
   * Connect layer `l` to layer `l + 1`: each neuron of layer `l`, in order,
   * gets one new synapse per neuron of layer `l + 1`, weighed by
   * `randomBetween(min, max)`; the synapse tables record the new synapses.
   */
  method ConnectLayer(layers: seq<Layer>, l: nat, min: real, max: real, draw: (nat, nat, nat) -> real,
                      ghost neuronAt: seq<seq<Neuron>>, ghost neuronPos: map<Neuron, (nat, nat)>,
                      ghost synapseAt: seq<seq<seq<Synapse>>>, ghost synapsePos: map<Synapse, (nat, nat, nat)>)
    returns (ghost synapseAt': seq<seq<seq<Synapse>>>, ghost synapsePos': map<Synapse, (nat, nat, nat)>)
    requires l + 1 < |layers| == |neuronAt| == |synapseAt|
    requires forall i :: 0 <= i < |layers| ==> layers[i].neurons == neuronAt[i] && |synapseAt[i]| == |neuronAt[i]|
    requires NeuronsIndexed(neuronAt, neuronPos) && SynapsesIndexed(synapseAt, synapsePos)
    requires forall nr {:trigger neuronPos[nr]} :: nr in neuronPos ==>
      nr.synapses == synapseAt[neuronPos[nr].0][neuronPos[nr].1]
    requires forall n :: 0 <= n < |synapseAt[l]| ==> synapseAt[l][n] == []
    modifies neuronPos.Keys`synapses
    ensures |synapseAt'| == |synapseAt| && forall i :: 0 <= i < |synapseAt| ==> |synapseAt'[i]| == |synapseAt[i]|
    ensures forall i :: 0 <= i < |synapseAt| && i != l ==> synapseAt'[i] == synapseAt[i]
    ensures forall n :: 0 <= n < |synapseAt'[l]| ==> |synapseAt'[l][n]| == |neuronAt[l + 1]|
    ensures SynapsesIndexed(synapseAt', synapsePos')
    ensures forall s {:trigger synapsePos[s]} :: s in synapsePos ==> s in synapsePos' && synapsePos'[s] == synapsePos[s]
    ensures forall s {:trigger synapsePos'[s]} :: s in synapsePos' && s !in synapsePos ==>
      && synapsePos'[s].0 == l
      && s.weight == RandomBetween(min, max, draw(synapsePos'[s].0, synapsePos'[s].1, synapsePos'[s].2))
      && s.deltaOld == 0.0
    ensures forall nr {:trigger neuronPos[nr]} :: nr in neuronPos ==>
      nr.synapses == synapseAt'[neuronPos[nr].0][neuronPos[nr].1]
  {
    synapseAt' := synapseAt;
    synapsePos' := synapsePos;
    var synapseCount := |layers[l + 1].neurons|;
    var n := 0;
    while n < |layers[l].neurons|
      invariant 0 <= n <= |neuronAt[l]|
      invariant RowsFilled(synapseAt, synapseAt', l, n, synapseCount)
      invariant SynapsesIndexed(synapseAt', synapsePos')
      invariant Extends(synapsePos, synapsePos', l, min, max, draw)
      invariant forall nr {:trigger neuronPos[nr]} :: nr in neuronPos ==>
        nr.synapses == synapseAt'[neuronPos[nr].0][neuronPos[nr].1]
    {
      var nr := layers[l].neurons[n];
      ghost var (atBefore, posBefore) := (synapseAt', synapsePos');
      synapseAt', synapsePos' := ConnectNeuron(nr, l, n, synapseCount, min, max, draw, neuronAt, neuronPos, synapseAt', synapsePos');
      RowsFilledStep(synapseAt, atBefore, l, n, synapseCount, nr.synapses);
      ExtendsStep(synapsePos, posBefore, synapsePos', l, min, max, draw);
      n := n + 1;
    }
  }

  /**
   * After layer `l` is connected with the range `InitialWeight` gives it,
   * every recorded synapse leaves a layer up to `l` and weighs what
   * `InitialWeight` says, with no previous change.
   */
  lemma WeighedAfterLayer(layerCount: nat, l: nat, min: real, max: real, draw: (nat, nat, nat) -> real,
                          before: map<Synapse, (nat, nat, nat)>, after: map<Synapse, (nat, nat, nat)>)
    requires forall r :: RandomBetween(min, max, r) == InitialWeight(layerCount, l, r)
    requires forall s {:trigger before[s]} :: s in before ==>
      && before[s].0 < l
      && s.weight == InitialWeight(layerCount, before[s].0, draw(before[s].0, before[s].1, before[s].2))
      && s.deltaOld == 0.0
    requires forall s {:trigger before[s]} :: s in before ==> s in after && after[s] == before[s]
    requires forall s {:trigger after[s]} :: s in after && s !in before ==>
      && after[s].0 == l
      && s.weight == RandomBetween(min, max, draw(after[s].0, after[s].1, after[s].2))
      && s.deltaOld == 0.0
    ensures forall s {:trigger after[s]} :: s in after ==>
      && after[s].0 < l + 1
      && s.weight == InitialWeight(layerCount, after[s].0, draw(after[s].0, after[s].1, after[s].2))
      && s.deltaOld == 0.0
  {
    forall s | s in after
      ensures after[s].0 < l + 1
      ensures s.weight == InitialWeight(layerCount, after[s].0, draw(after[s].0, after[s].1, after[s].2))
    {
      if s in before {
        assert after[s] == before[s];
      } else {
        assert s.weight == RandomBetween(min, max, draw(after[s].0, after[s].1, after[s].2));
      }
    }
  }

  /**
   * `connectNeurons`: every layer but the last two is connected to the next
   * with weights from [-0.2, 0.2], then the last hidden layer (the input
   * layer when there is none) to the output layer with weights from
   * [-2.0, 2.0].
   */
  method ConnectNeurons(layers: seq<Layer>, draw: (nat, nat, nat) -> real,
                        ghost neuronAt: seq<seq<Neuron>>, ghost neuronPos: map<Neuron, (nat, nat)>)
    returns (ghost synapseAt: seq<seq<seq<Synapse>>>, ghost synapsePos: map<Synapse, (nat, nat, nat)>)
    requires 2 <= |layers| == |neuronAt|
    requires forall l :: 0 <= l < |layers| ==> layers[l].neurons == neuronAt[l]
    requires NeuronsIndexed(neuronAt, neuronPos)
    requires forall nr :: nr in neuronPos ==> nr.synapses == []
    modifies neuronPos.Keys`synapses
    ensures SynapsesIndexed(synapseAt, synapsePos)
    ensures |synapseAt| == |neuronAt| && forall l :: 0 <= l < |neuronAt| ==> |synapseAt[l]| == |neuronAt[l]|
    ensures forall l, n :: 0 <= l < |synapseAt| && 0 <= n < |synapseAt[l]| ==>
      |synapseAt[l][n]| == if l + 1 < |neuronAt| then |neuronAt[l + 1]| else 0
    ensures forall nr {:trigger neuronPos[nr]} :: nr in neuronPos ==>
      nr.synapses == synapseAt[neuronPos[nr].0][neuronPos[nr].1]
    ensures forall s {:trigger synapsePos[s]} :: s in synapsePos ==>
      && s.weight == InitialWeight(|layers|, synapsePos[s].0, draw(synapsePos[s].0, synapsePos[s].1, synapsePos[s].2))
      && s.deltaOld == 0.0
  {
    synapseAt := seq(|neuronAt|, l requires 0 <= l < |neuronAt| => seq(|neuronAt[l]|, _ => []));
    synapsePos := map[];
    var layerIndex := 0;
    while layerIndex < |layers| - 2
      invariant 0 <= layerIndex <= |layers| - 2
      invariant |synapseAt| == |neuronAt| && forall l :: 0 <= l < |neuronAt| ==> |synapseAt[l]| == |neuronAt[l]|
      invariant forall l, n :: 0 <= l < |synapseAt| && 0 <= n < |synapseAt[l]| ==>
        |synapseAt[l][n]| == if l < layerIndex then |neuronAt[l + 1]| else 0
      invariant SynapsesIndexed(synapseAt, synapsePos)
      invariant forall nr {:trigger neuronPos[nr]} :: nr in neuronPos ==>
        nr.synapses == synapseAt[neuronPos[nr].0][neuronPos[nr].1]
      invariant forall s {:trigger synapsePos[s]} :: s in synapsePos ==>
        && synapsePos[s].0 < layerIndex
        && s.weight == InitialWeight(|layers|, synapsePos[s].0, draw(synapsePos[s].0, synapsePos[s].1, synapsePos[s].2))
        && s.deltaOld == 0.0
    {
      ghost var before := synapsePos;
      synapseAt, synapsePos := ConnectLayer(layers, layerIndex, -0.2, 0.2, draw, neuronAt, neuronPos, synapseAt, synapsePos);
      WeighedAfterLayer(|layers|, layerIndex, -0.2, 0.2, draw, before, synapsePos);
      layerIndex := layerIndex + 1;
    }
    ghost var before := synapsePos;
    synapseAt, synapsePos := ConnectLayer(layers, layerIndex, -2.0, 2.0, draw, neuronAt, neuronPos, synapseAt, synapsePos);
    WeighedAfterLayer(|layers|, layerIndex, -2.0, 2.0, draw, before, synapsePos);
  }

  /**
   * Everything the constructor builds: the layers of new neurons, all
   * connected, with every output 0.0, every synapse weighted by its draw
   * and no previous change anywhere.
   */
  method Build(t: Topology, draw: (nat, nat, nat) -> real)
    returns (layers: seq<Layer>, ghost neuronAt: seq<seq<Neuron>>, ghost neuronPos: map<Neuron, (nat, nat)>,
             ghost synapseAt: seq<seq<seq<Synapse>>>, ghost synapsePos: map<Synapse, (nat, nat, nat)>)
    ensures |layers| == |neuronAt| == |synapseAt| == |LayerWidths(t)|
    ensures forall l :: 0 <= l < |layers| ==>
      layers[l].neurons == neuronAt[l] && |neuronAt[l]| == |synapseAt[l]| == LayerWidths(t)[l]
    ensures forall l, n :: 0 <= l < |synapseAt| && 0 <= n < |synapseAt[l]| ==>
      |synapseAt[l][n]| == if l + 1 < |neuronAt| then |neuronAt[l + 1]| else 0
    ensures NeuronsIndexed(neuronAt, neuronPos) && SynapsesIndexed(synapseAt, synapsePos)
    ensures forall nr {:trigger neuronPos[nr]} :: nr in neuronPos ==>
      nr.outputVal == 0.0 && nr.synapses == synapseAt[neuronPos[nr].0][neuronPos[nr].1]
    ensures forall s {:trigger synapsePos[s]} :: s in synapsePos ==>
      && s.weight == InitialWeight(|layers|, synapsePos[s].0, draw(synapsePos[s].0, synapsePos[s].1, synapsePos[s].2))
      && s.deltaOld == 0.0
  {
    layers, neuronAt, neuronPos := NewLayers(t);
    synapseAt, synapsePos := ConnectNeurons(layers, draw, neuronAt, neuronPos);
  }
}
