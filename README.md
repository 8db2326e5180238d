# legendary-mind in Dafny

A model of the core of the PHP library devtronic/legendary-mind. The library is a small feed-forward neural network trained by back-propagation with momentum, plus a wrapper that maps named features onto the network's input and output neurons.

The network keeps its parts as mutable objects, and so does the model:

- A `Mind` owns a list of `Layer`s.
- Each `Layer` owns `Neuron`s.
- Each `Neuron` owns one outgoing `Synapse` per neuron of the next layer.
- A `Synapse` holds a weight and the gradient term `change` of its last update (`deltaOld`); the change actually applied is `rate * change + momentum * deltaOld`.

The construction of the network and every operation on it are imperative methods on these classes:

- `predict` / `feedForward`;
- `backPropagate`;
- `train`;
- `getOutput`.

Each method is proved against a specification function on values (the `Net` datatype: layers of neuron values). The network object carries a ghost snapshot `net` of that value, and its `Valid()` predicate ties the snapshot to the heap. Several facts are stated as lemmas about those functions:

- the forward order;
- the delta and update rules;
- the error;
- early termination of training on an exception;
- the order in which lessons are taken.

The wrapper is a class. Its `initialize` is a loop proved against a fold (`Declare`). `prepareLesson` and the decoding half of `getResult` are pure functions with lemmas:

- sound slot indices;
- declaration-order layout;
- 0/1 vectors of the right length;
- encoding followed by decoding hands back exactly the marked options.

The root-level `Mind.php`, `Layer.php`, `Topology.php` and `Wrapper.php` are an older copy of the same algorithm. Where they differ, the difference is modelled as well:

- `propagate` is an alias of `predict`;
- `n_rand` is used instead of `randomBetween`.

Elsewhere the older copy's code paths match the newer ones, and the same members model both:

- the layer step (`Layer.php:15-25`);
- the constructor (`Mind.php:44-80`);
- `predict` (`Mind.php:131-141`);
- `backPropagate` (`Mind.php:164-216`);
- `train` (`Mind.php:238-248`);
- the wrapper's `initialize` (`Wrapper.php:53-88`);
- the wrapper's `propagate` (`Wrapper.php:114-118`), which goes through the network's `propagate`.

Modules:

- `Topologies` (topology.dfy): the topology record and the layer widths it yields.
- `Values` (values.dfy): value views of synapses, neurons and networks; the exceptions.
- `LayerSpec` (layer_spec.dfy): one layer's feed-forward step on values.
- `Records` (records.dfy): the `Synapse` and `Neuron` classes.
- `Layers` (layer.dfy): the `Layer` class and its feed-forward loop.
- `MindSpec` (mind_spec.dfy): the network's operations as functions on `Net`, and their lemmas.
- `Wiring` (wiring.dfy): building the layers and connecting the neurons.
- `Minds` (mind.dfy): the `Mind` class.
- `WrapperSpec` (wrapper_spec.dfy): feature declarations, lesson encoding and output decoding on values.
- `Wrappers` (wrapper.dfy): the `Wrapper` class.

## Model

| member | source | states |
|---|---|---|
| Topologies.LayerWidths | src/Mind.php:56-80 | The network has the input width, then `hiddenLayers` hidden layers of the hidden width, then the output width. A negative count makes its loop run zero times. |
| Topologies.WidthsOfNonNegativeTopology | src/Topology.php:41-47 | With non-negative counts there are exactly `hiddenLayers + 2` layers, with the stored widths. |
| Records.Synapse.constructor | src/Synapse.php:23-36 | A new synapse keeps the given weight, and its previous change is 0.0. |
| Records.Synapse.Unweighted | src/Synapse.php:33 | A synapse made without a weight weighs 0.0. |
| Records.Synapse.Adjust | src/Mind.php:195-197 | The weight grows by `rate * change + momentum * deltaOld`, and `change` becomes the new `deltaOld`. |
| Records.Neuron.constructor | src/Neuron.php:22-25 | A new neuron has no synapses and output 0.0. |
| LayerSpec.FeedLayer | src/Layer.php:31-41 | Every neuron `n` of the fed layer holds the activation of `Σ_p out(p) * weight(p → n)` over the previous layer. No neuron is added or lost. |
| LayerSpec.FeedLayerFrame | src/Layer.php:33-40 | Feeding writes outputs only. Every synapse of the fed layer is unchanged. |
| LayerSpec.FeedFromEmptyLayer | src/Layer.php:34-38 | Fed from an empty layer, every neuron holds `f(0.0)`. |
| LayerSpec.FeedInOrderAt | src/Layer.php:33-40 | After feeding neurons in some order, a neuron holds its fed value exactly when its index was visited. Otherwise it holds its old value. |
| LayerSpec.FeedOrderIrrelevant | src/Layer.php:33-40 | Any visiting order that covers every index yields the layer that index order yields. Each sum reads only the previous layer. |
| LayerSpec.FixtureSums | tests/MindTest.php:82-114 | The test fixture (outputs 1 and 1, weights [0.3, 0.2] and [0.6, 0.4]) feeds the sums 0.9 and 0.6 into the activation. |
| Layers.Layer.FeedForward | src/Layer.php:31-41 | The loop sets each neuron's output to the activation of its weighted sum. The previous layer and all weights keep their values. |
| MindSpec.RandomBetweenInRange | src/Mind.php:289-292 | With `min <= max` and a draw in [0, 1], `min + r * abs(max - min)` lies in [min, max]. |
| MindSpec.RandomBetweenReversed | src/Mind.php:289-292 | With reversed bounds the result lies in [min, 2*min - max], not between the bounds. |
| MindSpec.NRandInRange | Mind.php:298-304 | `n_rand` stays between its bounds in either order. For ordered bounds it equals `randomBetween`, so the older constructor builds the same network. |
| MindSpec.BuiltStructure | src/Mind.php:46-84 | The constructor builds layers of the topology's widths, and every output is 0.0. Each neuron outside the output layer has one synapse per next-layer neuron, each with `deltaOld` 0.0. Output neurons have no synapses. |
| MindSpec.BuiltWeightBounds | src/Mind.php:97-116 | Synapses into hidden layers weigh in [-0.2, 0.2], and synapses into the output layer weigh in [-2.0, 2.0]. |
| Wiring.NewLayer | src/Mind.php:58-61 | A new layer holds `Count(count)` new, distinct neurons, each with output 0.0 and no synapses. |
| Wiring.AddLayer | src/Mind.php:64-73 | Appending a layer records each new neuron at its (layer, index) position. Earlier positions are kept. |
| Wiring.NewLayers | src/Mind.php:56-80 | The layers have the topology's widths. Every neuron is new, distinct and recorded at its position. |
| Wiring.ConnectNeuron | src/Mind.php:102-106 | A neuron receives `count` new synapses. Synapse `k` weighs `randomBetween(min, max)` for its draw, and each synapse is recorded at its position. |
| Wiring.ConnectLayer | src/Mind.php:99-107 | Every neuron of a layer gets one synapse per neuron of the next layer, drawn from the given range. Neurons of other layers are untouched. |
| Wiring.ConnectNeurons | src/Mind.php:97-116 | Every pair of layers before the last is connected with [-0.2, 0.2]. The last pair is connected with [-2.0, 2.0]. Every synapse is new and distinct, with `deltaOld` 0.0. |
| Wiring.Build | src/Mind.php:56-82 | The layers and synapses are exactly those of `Built(topology, draw)`. They are recorded by position. |
| Minds.Mind.constructor | src/Mind.php:46-84 | The new network is valid and keeps its topology and activator. Its value is `Built(topology, draw)` and its error is 0.0. |
| MindSpec.Forward | src/Mind.php:139-145 | The forward pass up to layer `k` keeps every synapse, the input layer and the layers above `k`. |
| MindSpec.ForwardLayers | src/Mind.php:139-145 | After the pass, each layer up to `k` is fed from the newly computed layer below it, in increasing order. |
| MindSpec.PredictForwardOrder | src/Mind.php:124-145 | `predict` puts the inputs into the input layer index for index. It feeds each later layer from the recomputed layer before it, and moves no weight. |
| MindSpec.PredictUnique | src/Mind.php:124-145 | Any network that satisfies those forward-order equations is the one `predict` computes. |
| MindSpec.PredictStep | src/Mind.php:124-134 | `predict` passes exactly when the input count matches the topology. It keeps the network's shape. |
| MindSpec.PredictShaped | src/Mind.php:130-133 | Writing the inputs and feeding forward keeps the shape. |
| Minds.Mind.SetInput | src/Mind.php:131 | Input neuron `n` now holds `x`. Nothing else changes. |
| Minds.Mind.WriteInputs | src/Mind.php:130-132 | The heap holds the net with the inputs put into the input layer. |
| Minds.Mind.FeedLayerAt | src/Mind.php:142-143 | Layer `l` is fed from layer `l - 1` and holds `FeedLayer` of them. |
| Minds.Mind.FeedForward | src/Mind.php:139-145 | The heap holds `Forward` over every layer. |
| Minds.Mind.Predict | src/Mind.php:124-134 | The new network and outcome are `PredictStep` of the old network. A wrong input count throws and changes nothing. |
| Minds.Mind.Propagate | Mind.php:120-123 | The older `propagate` behaves exactly as `predict`. |
| Minds.Mind.GetOutput | src/Mind.php:247-258 | Returns one value per output neuron, in order: its output rounded to five decimals. |
| MindSpec.Round5Close | src/Mind.php:253-254 | Rounding moves a value by at most 0.000005. |
| MindSpec.Round5Exact | src/Mind.php:253-254 | A value with at most five decimals is written exactly. |
| MindSpec.Round5Symmetric | src/Mind.php:253-254 | Rounding is odd-symmetric (halves away from zero), and rounding twice is rounding once. |
| MindSpec.DeltasFrom | src/Mind.php:172-185 | The delta table has a row for exactly the layers processed so far, each row of its layer's width. |
| MindSpec.DeltasFromStable | src/Mind.php:172-185 | Processing lower layers never changes a row already computed. |
| MindSpec.DeltaRules | src/Mind.php:164-185 | An output delta is `f'(out) * (target - out)`. A hidden delta is `f'(out) * Σ_k delta[next][k] * w[k]`. Every value is taken before any weight moves, and the input layer gets no row. |
| Minds.Mind.OutputDeltaRow | src/Mind.php:164-170 | The loop computes the output layer's delta row. |
| Minds.Mind.BackSumAt | src/Mind.php:178-181 | The loop accumulates a hidden neuron's back-propagated sum in index order. |
| Minds.Mind.HiddenDeltaRow | src/Mind.php:175-184 | The loop computes a hidden layer's delta row from the row above it. |
| Minds.Mind.ComputeDeltas | src/Mind.php:162-185 | The table is `Deltas(net, expected)`: the output layer first, then the hidden layers from the top down. |
| MindSpec.UpdatedNeuron | src/Mind.php:192-198 | Synapse `k` of the neuron takes the momentum update with `change = row[k] * out`. The output is unchanged. |
| MindSpec.UpdatedNeuronStep | src/Mind.php:192-198 | Updating synapse `k` after synapses `0..k-1` extends the neuron's update by one synapse. |
| MindSpec.UpdatedLayerStep | src/Mind.php:191-199 | Updating neuron `j` after neurons `0..j-1` extends the layer's update by one neuron. |
| MindSpec.UpdatedLayerEnds | src/Mind.php:191-199 | No neurons updated is the old layer, and all updated is the layer's update. |
| MindSpec.UpdatedNetRules | src/Mind.php:187-200 | The synapse `j → k` from layer `l` moves by the momentum rule exactly when layer `l + 1` is visited. Outputs and shape stay. |
| MindSpec.UpdatedNetKeeps | src/Mind.php:187-200 | The update pass keeps the network's shape and every output. |
| MindSpec.UpdatedNetSynapses | src/Mind.php:187-200 | Exactly the synapses into the handled layers take the momentum update with `change = delta * outputVal`. The others stay. |
| MindSpec.UpdatedNetIdle | src/Mind.php:189 | A pass over no layers (for example, a negative hidden-layer count) changes nothing. |
| MindSpec.UpdatedNetStep | src/Mind.php:189-200 | Visiting layer `l` after the layers above it extends the pass by one layer. |
| Minds.Mind.AdjustAt | src/Mind.php:193-197 | One synapse takes the momentum update, and the heap holds the updated value. |
| Minds.Mind.UpdateNeuron | src/Mind.php:192-198 | The loop updates every synapse of neuron `j` from the row of the next layer. |
| Minds.Mind.UpdateLayer | src/Mind.php:190-199 | The loop updates every neuron of layer `l - 1`. |
| Minds.Mind.UpdateWeights | src/Mind.php:187-200 | The loop visits layers `hiddenLayers + 1` down to 1. The heap then holds `UpdatedNet`. |
| MindSpec.HalfSquaredErrorZero | src/Mind.php:202-205 | The error is never negative, and it is zero exactly when every output equals its target. |
| Minds.Mind.HalfSquaredErrorOf | src/Mind.php:202-205 | The loop sums `0.5 * pow(target - out, 2)` in order. |
| MindSpec.BackpropagatedParts | src/Mind.php:162-207 | `backPropagate` is the update pass over the delta table, plus the error of the outputs, which the pass does not touch. |
| MindSpec.BackpropagatedWeights | src/Mind.php:187-200 | Every visited synapse takes `w + rate * change + momentum * deltaOld` with deltas and outputs from before the update. Its `deltaOld` becomes `change`. Everything else stays. |
| MindSpec.BackpropagatedError | src/Mind.php:202-207 | The returned error is the half squared error of the outputs. It is non-negative and zero exactly at the targets. |
| MindSpec.BackpropagatedShaped | src/Mind.php:187-200 | Back-propagation keeps the network's shape. |
| MindSpec.BackPropStep | src/Mind.php:156-160 | `backPropagate` succeeds exactly when the target count matches the output count. On a mismatch it changes nothing. The shape is kept. |
| MindSpec.BackPropStepOk | src/Mind.php:156-207 | When the target count matches, `backPropagate` is exactly the update pass and the error of `Backpropagated`. |
| Minds.Mind.BackPropagateChecked | src/Mind.php:162-207 | After the count check, the network holds the update pass over the old network's deltas. The returned and stored error is the half squared error of the outputs. |
| Minds.Mind.BackPropagate | src/Mind.php:156-208 | The new network and result are `BackPropStep` of the old network. The stored error is the returned error on success and the old one after a throw. The rate and momentum default to 0.2 and 0.01. |
| MindSpec.TrainPass | src/Mind.php:234-238 | A pass over the lessons keeps the network's shape. |
| MindSpec.Teach | src/Mind.php:235-237 | Predicting and back-propagating the first lesson, then passing over the rest, keeps the shape. |
| MindSpec.TrainOne | src/Mind.php:235-237 | One lesson is `predict` on its inputs, then, unless that threw, `backPropagate` on its targets. Either exception is the outcome. |
| MindSpec.TrainRounds | src/Mind.php:232-239 | Training keeps the network's shape. |
| MindSpec.TrainNothing | src/Mind.php:232-234 | Zero (or negative) iterations, or no lessons, change nothing and throw nothing. |
| MindSpec.TrainPassAppend | src/Mind.php:234-238 | A pass over `a + b` is the pass over `a` followed, unless it threw, by the pass over `b`. |
| MindSpec.TrainPassExtend | src/Mind.php:234-238 | Lesson `p` runs after lessons `0..p-1`, unless one of them threw. |
| MindSpec.TrainPassStops | src/Mind.php:234-238 | Once a prefix has thrown, the rest of the pass is skipped. |
| MindSpec.TrainRoundsStuck | src/Mind.php:232-239 | Once a round has thrown, more rounds change nothing. |
| Minds.Mind.Learn | src/Mind.php:235-237 | One lesson on the heap equals the pass over that single lesson. The stored error is `PassError` of that lesson: its back-propagation's error, or the old one if it threw. |
| Minds.Mind.TrainOnce | src/Mind.php:234-238 | The loop over the lessons equals `TrainPass`. The stored error is `PassError`: that of the last lesson that completed. |
| Minds.Mind.Train | src/Mind.php:230-240 | The network and outcome after training are `TrainRounds` over `Count(iterations)` rounds. The stored error is `RoundsError` of the same rounds. The defaults are 1000 iterations, rate 0.2 and momentum 0.01. |
| MindSpec.PassErrorOne | src/Mind.php:206 | One lesson stores its back-propagation's error. It keeps the old error when `predict` or `backPropagate` throws. |
| MindSpec.PassErrorAppend | src/Mind.php:234-238 | The error stored by a pass over `a + b` is that of `a`, then that of `b` started from it, unless `a` threw. |
| MindSpec.PassErrorExtend | src/Mind.php:234-238 | One more lesson stores its error after the earlier ones, unless they threw. |
| MindSpec.PassErrorStops | src/Mind.php:234-238 | After a throw, the rest of the pass stores nothing. |
| MindSpec.PassErrorLast | src/Mind.php:206 | After a pass over lessons that threw nothing, the stored error is the last lesson's back-propagation error, whatever was stored before. |
| MindSpec.RoundsErrorStuck | src/Mind.php:232-239 | Once a round has thrown, more rounds store nothing. |
| MindSpec.FitPassPasses | src/Mind.php:126-128 | A pass over lessons that fit the input and output counts never throws. |
| MindSpec.FitRoundsPass | src/Mind.php:158-160 | Training on lessons that fit the counts never throws, however many rounds. |
| WrapperSpec.DeclareOption | src/Wrapper.php:73 | The option's place gets the index, unless the group name holds a single slot. No other place changes. |
| WrapperSpec.DeclareOptionsSlots | src/Wrapper.php:71-74 | A group appends one zero slot per option. |
| WrapperSpec.DeclareSlots | src/Wrapper.php:69-79 | Declaring appends exactly `Width(features)` zero slots and keeps the existing ones. |
| WrapperSpec.DeclareOptionsSound | src/Wrapper.php:71-74 | After a group, every recorded index is an existing slot, and none is recorded twice. |
| WrapperSpec.DeclareSound | src/Wrapper.php:69-92 | After declaring, whatever the names, every recorded index is an existing slot and none is recorded twice. |
| WrapperSpec.DeclareOptionsPlaced | src/Wrapper.php:71-74 | The distinct options of a fresh group take consecutive slots in the order listed. Other names are untouched. |
| WrapperSpec.DeclareFeaturePlaced | src/Wrapper.php:70-78 | An entry under a free name takes the next slots and touches no other name. |
| WrapperSpec.DeclareKeeps | src/Wrapper.php:69-79 | Places whose name no entry uses keep their index. |
| WrapperSpec.DeclarePlacedAt | src/Wrapper.php:69-79 | With fresh, distinct names, entry `i` takes the slots from `|slots| + Width(features[..i])` in declaration order. |
| WrapperSpec.DeclareCovers | src/Wrapper.php:69-79 | With fresh, distinct names, every new slot is recorded somewhere. Starting from empty, the indices are exactly `0..count-1`, once each. |
| Wrappers.DeclareEach | src/Wrapper.php:69-79 | The loop appends and records slots exactly as `Declare` does. |
| Wrappers.Wrapper.constructor | src/Wrapper.php:53-57 | Stores the hidden counts. Nothing is declared and there is no topology yet. |
| Wrappers.Wrapper.Initialize | src/Wrapper.php:67-99 | Inputs and outputs are declared by `Declare`, appended to earlier declarations. The slots stay zero and the mapping stays sound. The topology is `(|inputs|, hiddenNeurons, hiddenLayers, |outputs|)`. |
| WrapperSpec.EncodeItems | src/Wrapper.php:213-218 | The listed options are marked. The length is kept and 0/1 vectors stay 0/1. Unrecorded slots are untouched. |
| WrapperSpec.EncodeDatum | src/Wrapper.php:212-229 | One named value is encoded. The length is kept, the vector stays 0/1, and unrecorded slots are untouched. |
| WrapperSpec.EncodeSide | src/Wrapper.php:212-230 | The side's values are encoded in order. The result has the vector's length and stays 0/1. Unrecorded slots are untouched. Which slots it sets is stated by `EncodeSideAt`. |
| WrapperSpec.Encode | src/Wrapper.php:211-231 | An absent side leaves the slot vector as it is. Otherwise the vector keeps its length and stays 0/1. |
| WrapperSpec.EncodeItemsMarks | src/Wrapper.php:213-218 | A recorded slot becomes 1 exactly when its option is in the list. Otherwise it keeps its value. |
| WrapperSpec.Decode | src/Wrapper.php:187-197 | The result has the mapping's names and shape, and every recorded place reads the output at its slot. |
| WrapperSpec.EncodeReadBack | src/Wrapper.php:232-252 | Encoding a named value onto zeros and decoding reads 1 at exactly the places the value marks. Every other recorded place reads 0. |
| WrapperSpec.EncodeDatumAt | src/Wrapper.php:212-229 | One named value sets a recorded slot to 1 where it marks it. It sets the slot to 0 where the loose test of a single-slot name fails, and leaves it otherwise. |
| WrapperSpec.EncodeSideAt | src/Wrapper.php:212-230 | For a side with distinct names, each recorded slot is 1 if some value marks it and 0 if some value clears it. Otherwise it is unchanged. |
| WrapperSpec.EncodeSideOnZeros | src/Wrapper.php:208-231 | On the zero vector, a side with distinct names gives 1 at exactly the recorded slots it marks and 0 everywhere else. Decoding reads the same 1/0 back at every recorded place. |
| Wrappers.Wrapper.PrepareLesson | src/Wrapper.php:206-254 | Both vectors have the slot counts and hold only 0 and 1. An absent side is all zero. A side with distinct names has 1 at exactly the slots its values mark. |
| Wrappers.Wrapper.PrepareAll | src/Wrapper.php:138-141 | Lesson `i` is the `i`-th lesson prepared. |
| Wrappers.Wrapper.PrepareEach | src/Wrapper.php:138-141 | The loop yields `PrepareAll`. Every lesson has one value per input slot and one per output slot. |
| Wrappers.Wrapper.Train | src/Wrapper.php:136-144 | The network after training is `TrainRounds` over the prepared lessons. The stored error is `RoundsError` of the same rounds. Training the network of the wrapper's own shape never throws. The defaults are 1000, 0.2 and 0.01. |
| Wrappers.Wrapper.Predict | src/Wrapper.php:162-166 | The network after the call is `PredictStep` on the prepared input side. On the network of the wrapper's own shape it never throws. |
| Wrappers.Wrapper.Propagate | src/Wrapper.php:152-155 | The deprecated name behaves exactly as `predict`, and never throws either. |
| Wrappers.Wrapper.BackPropagate | src/Wrapper.php:173-177 | The network after the call is `BackPropStep` on the prepared output side, with the defaults 0.2 and 0.01. On the network of the wrapper's own shape it succeeds and stores its error. |
| Wrappers.Wrapper.GetResult | src/Wrapper.php:184-198 | The result has the output mapping's names. Each recorded place reads the rounded output of its neuron. |

## Left out

- Activation functions: the hyperbolic-tangent and sigmoid activators are exponential floating-point functions. The model takes an arbitrary pair `activate`/`derivative` as a parameter, so the default hyperbolic tangent of `src/Mind.php:48-50` is not modelled, and neither are the string-named functions of the older `Mind.php`. The `activate`/`activateDerivative` delegations are calls of that pair.
- Randomness: `lcg_value` and `mt_rand` become a supplied function `draw(layer, neuron, slot)`. Its values are assumed in [0, 1] only where a bound is proved.
- `reInit`, the global `Mind::$instance`, and the wrapper's `archive`/`restore`: these are file I/O, serialisation and a global singleton. The model passes the activator explicitly instead.
- Calling `connectNeurons` a second time: it would append a second set of synapses. The model connects once, in the constructor.
- Minds.Mind.GetOutput: returns the number `number_format` would write, rounded to five decimals. It does not model the string form.
- Floating point: all arithmetic is on exact reals. IEEE rounding, overflow and NaN are not modelled, so neither is any convergence behaviour of training.
- The running `$error` sum in `train` is never read, so it is not modelled.
- Calling the wrapper's `train`, `predict`, `propagate` or `backPropagate` before `initialize`, or with a network of another shape: PHP would call a method on a null network. The model requires the network built from the shape `initialize` computed.
- Wrappers.Wrapper.Initialize: does not build the network. The wrapper passes its activation names where the network expects an activator object, and that construction is outside this model. The operations that drive the network take it as a parameter.
- Wrappers.Wrapper.Initialize: when an option group's name already holds a single slot, the slot is appended and nothing is recorded. This is PHP 7's "cannot use a scalar value as an array" warning; PHP 8 would throw instead.
- WrapperSpec.LooselyOne: of the numeric strings, only "1" counts as loosely equal to 1; spellings such as "1.0" or " 1" are not modelled.
- WrapperSpec.EncodeDatum: PHP turns boolean and numeric array keys into integers. That conversion is not modelled, so only text values select an option of a group.
- Lesson entries with a non-string name and declarations keyed by position are modelled with string names only.
