/**
 * The feature wrapper: it lays named features out on the network's input and
 * output neurons, turns named lessons into the 0/1 vectors the network
 * takes, and reads the network's outputs back by name.
 *
 * The wrapper builds its network from the topology it computes; that
 * construction is not part of this model, so the operations that drive the
 * network take it as a parameter.
 */
module Wrappers {
  import opened Values
  import opened Topologies
  import opened MindSpec
  import opened Minds
  import opened WrapperSpec

  /**
   * Appends the slots of the declaration entries to `slots` and records them
   * in `m`, entry by entry and option by option, each new slot's index being
   * the slot count right after the append minus one.
   */
  method DeclareEach(slots: seq<int>, m: Mapping, features: seq<Feature>) returns (slots': seq<int>, m': Mapping)
    ensures (slots', m') == Declare(slots, m, features)
  {
    slots', m' := slots, m;
    for i := 0 to |features|
      invariant (slots', m') == Declare(slots, m, features[..i])
    {
      var (name, property) := features[i];
      match property {
        case Options(options) =>
          ghost var start := (slots', m');
          for k := 0 to |options|
            invariant (slots', m') == DeclareOptions(start.0, start.1, name, options[..k])
          {
            slots' := slots' + [0];
            if name in m' && m'[name].Slot? {
              // the name holds a single slot, which cannot be indexed: nothing is recorded
            } else {
              var group := if name in m' then m'[name].indices else map[];
              m' := m'[name := Slots(group[options[k] := |slots'| - 1])];
            }
            assert options[..k + 1][..k] == options[..k];
          }
          assert options[..|options|] == options;
        case Scalar(value) =>
          slots' := slots' + [0];
          m' := m'[value := Slot(|slots'| - 1)];
      }
      assert features[..i + 1][..i] == features[..i];
    }
    assert features[..|features|] == features;
  }

  /** A prepared lesson as the network takes it. */
  function AsLesson(prepared: (seq<int>, seq<int>)): (r: Lesson)
    ensures |r.0| == |prepared.0| && |r.1| == |prepared.1|
  {
    (AsReals(prepared.0), AsReals(prepared.1))
  }

  class Wrapper {
    const hiddenNeurons: int
    const hiddenLayers: int
    /** One zero per input slot. */
    var inputs: seq<int>
    var inputMapping: Mapping
    /** One zero per output slot. */
    var outputs: seq<int>
    var outputMapping: Mapping
    /** The network shape, once initialised. */
    var topology: Option<Topology>

    /**
     * The slot vectors hold zeros; every recorded index names an existing
     * slot, and no slot is recorded twice; the network shape, once computed,
     * has one input neuron per input slot and one output neuron per output slot.
     */
    ghost predicate Valid()
      reads this
    {
      && inputs == Zeros(|inputs|) && outputs == Zeros(|outputs|)
      && (topology.Some? ==> topology.value == Topology(|inputs|, hiddenNeurons, hiddenLayers, |outputs|))
      && Bounded(inputMapping, |inputs|) && Injective(inputMapping)
      && Bounded(outputMapping, |outputs|) && Injective(outputMapping)
    }

    constructor (hiddenNeurons: int, hiddenLayers: int)
      ensures Valid()
      ensures this.hiddenNeurons == hiddenNeurons && this.hiddenLayers == hiddenLayers
      ensures inputs == [] && outputs == [] && inputMapping == map[] && outputMapping == map[]
      ensures topology == None
    {
      this.hiddenNeurons := hiddenNeurons;
      this.hiddenLayers := hiddenLayers;
      inputs, outputs := [], [];
      inputMapping, outputMapping := map[], map[];
      topology := None;
    }

    /**
     * Declares the input and output features (appending to any declared
     * before) and computes the network shape from the slot counts.
     */
    method Initialize(inputFeatures: seq<Feature>, outputFeatures: seq<Feature>)
      requires Valid()
      modifies this
      ensures Valid()
      ensures (inputs, inputMapping) == Declare(old(inputs), old(inputMapping), inputFeatures)
      ensures (outputs, outputMapping) == Declare(old(outputs), old(outputMapping), outputFeatures)
      ensures |inputs| == |old(inputs)| + Width(inputFeatures) && |outputs| == |old(outputs)| + Width(outputFeatures)
      ensures topology == Some(Topology(|inputs|, hiddenNeurons, hiddenLayers, |outputs|))
    {
      DeclareSound(inputs, inputMapping, inputFeatures);
      DeclareSlots(inputs, inputMapping, inputFeatures);
      DeclareSound(outputs, outputMapping, outputFeatures);
      DeclareSlots(outputs, outputMapping, outputFeatures);
      inputs, inputMapping := DeclareEach(inputs, inputMapping, inputFeatures);
      outputs, outputMapping := DeclareEach(outputs, outputMapping, outputFeatures);
      topology := Some(Topology(|inputs|, hiddenNeurons, hiddenLayers, |outputs|));
    }

    /**
     * The lesson's input and output sides encoded onto the zero slot vectors:
     * an absent side stays all zero, and a side with distinct names has 1 at
     * exactly the slots its values mark.
     */
    function PrepareLesson(lesson: NamedLesson): (r: (seq<int>, seq<int>))
      reads this
      requires Valid()
      ensures |r.0| == |inputs| && |r.1| == |outputs|
      ensures Binary(r.0) && Binary(r.1)
      ensures lesson.input.None? ==> r.0 == Zeros(|inputs|)
      ensures lesson.output.None? ==> r.1 == Zeros(|outputs|)
      ensures lesson.input.Some? && DistinctNames(lesson.input.value) ==> EncodedAs(r.0, inputMapping, lesson.input.value)
      ensures lesson.output.Some? && DistinctNames(lesson.output.value) ==> EncodedAs(r.1, outputMapping, lesson.output.value)
    {
      var ins := Encode(inputs, inputMapping, lesson.input);
      var outs := Encode(outputs, outputMapping, lesson.output);
      assert lesson.input.Some? && DistinctNames(lesson.input.value) ==> EncodedAs(ins, inputMapping, lesson.input.value) by {
        if lesson.input.Some? && DistinctNames(lesson.input.value) {
          EncodeSideOnZeros(inputMapping, |inputs|, lesson.input.value);
        }
      }
      assert lesson.output.Some? && DistinctNames(lesson.output.value) ==> EncodedAs(outs, outputMapping, lesson.output.value) by {
        if lesson.output.Some? && DistinctNames(lesson.output.value) {
          EncodeSideOnZeros(outputMapping, |outputs|, lesson.output.value);
        }
      }
      (ins, outs)
    }

    /** The prepared lessons, in order. */
    function PrepareAll(training: seq<NamedLesson>): (r: seq<Lesson>)
      reads this
      requires Valid()
      ensures |r| == |training|
      ensures forall i :: 0 <= i < |training| ==> r[i] == AsLesson(PrepareLesson(training[i]))
      decreases |training|
    {
      if training == [] then []
      else PrepareAll(training[..|training| - 1]) + [AsLesson(PrepareLesson(training[|training| - 1]))]
    }

    /**
     * Prepares every lesson and trains the network on them.  The lessons fit
     * the network built from this wrapper's shape, so training throws nothing.
     */
    method Train(mind: Mind, training: seq<NamedLesson>, iterations: int := DefaultIterations,
                 learningRate: real := DefaultLearningRate, momentum: real := DefaultMomentum)
      returns (outcome: Outcome)
      requires Valid() && mind.Valid() && topology == Some(mind.topology)
      modifies mind`net, mind`error, mind.neuronPos.Keys`outputVal, mind.synapsePos.Keys
      ensures mind.Valid()
      ensures (mind.net, outcome) ==
        TrainRounds(old(mind.net), mind.topology, PrepareAll(training), Count(iterations), learningRate, momentum, mind.activator)
      ensures mind.error ==
        RoundsError(old(mind.net), mind.topology, PrepareAll(training), Count(iterations), learningRate, momentum, mind.activator, old(mind.error))
      ensures outcome == Pass
    {
      var lessons := PrepareEach(training);
      assert Fit(mind.topology, lessons);
      FitRoundsPass(mind.net, mind.topology, lessons, Count(iterations), learningRate, momentum, mind.activator);
      outcome := mind.Train(lessons, iterations, learningRate, momentum);
    }

    /** The lessons prepared one by one, in order; each has one value per input slot and one per output slot. */
    method PrepareEach(training: seq<NamedLesson>) returns (lessons: seq<Lesson>)
      requires Valid()
      ensures lessons == PrepareAll(training)
      ensures forall i :: 0 <= i < |lessons| ==> |lessons[i].0| == |inputs| && |lessons[i].1| == |outputs|
    {
      lessons := [];
      for i := 0 to |training|
        invariant lessons == PrepareAll(training[..i])
      {
        lessons := lessons + [AsLesson(PrepareLesson(training[i]))];
        assert training[..i + 1][..i] == training[..i];
      }
      assert training[..|training|] == training;
    }

    /** Feeds the lesson's encoded input side through the network; the input count always fits. */
    method Predict(mind: Mind, lesson: NamedLesson) returns (outcome: Outcome)
      requires Valid() && mind.Valid() && topology == Some(mind.topology)
      modifies mind`net, mind.neuronPos.Keys`outputVal
      ensures mind.Valid()
      ensures (mind.net, outcome) == PredictStep(old(mind.net), mind.topology, AsReals(PrepareLesson(lesson).0), mind.activator)
      ensures outcome == Pass
    {
      var prepared := PrepareLesson(lesson);
      outcome := mind.Predict(AsReals(prepared.0));
    }

    /** The former name of Predict. */
    method Propagate(mind: Mind, lesson: NamedLesson) returns (outcome: Outcome)
      requires Valid() && mind.Valid() && topology == Some(mind.topology)
      modifies mind`net, mind.neuronPos.Keys`outputVal
      ensures mind.Valid()
      ensures (mind.net, outcome) == PredictStep(old(mind.net), mind.topology, AsReals(PrepareLesson(lesson).0), mind.activator)
      ensures outcome == Pass
    {
      outcome := Predict(mind, lesson);
    }

    /**
     * Back-propagates the lesson's encoded output side with the network's
     * default rate and momentum; the target count always fits, and the
     * network stores the error it returns.
     */
    method BackPropagate(mind: Mind, lesson: NamedLesson) returns (result: Result<real>)
      requires Valid() && mind.Valid() && topology == Some(mind.topology)
      modifies mind`net, mind`error, mind.synapsePos.Keys
      ensures mind.Valid()
      ensures (mind.net, result) ==
        BackPropStep(old(mind.net), mind.topology, AsReals(PrepareLesson(lesson).1), DefaultLearningRate, DefaultMomentum, mind.activator)
      ensures result.Ok? && mind.error == result.value
    {
      var prepared := PrepareLesson(lesson);
      result := mind.BackPropagate(AsReals(prepared.1));
    }

    /**
     * The output mapping with every recorded slot replaced by the network's
     * (rounded) output of that neuron: same names, same shape.
     */
    method GetResult(mind: Mind) returns (result: map<string, Reading>)
      requires Valid() && mind.Valid()
      requires mind.topology.neuronsOutput == |outputs|
      ensures |mind.net| > 0 && |mind.net[|mind.net| - 1]| == |outputs|
      ensures result.Keys == outputMapping.Keys
      ensures forall p ::
                ReadAt(result, p) ==
                  if IndexAt(outputMapping, p).Some?
                  then Some(Round5(mind.net[|mind.net| - 1][IndexAt(outputMapping, p).value].outputVal))
                  else None
    {
      var out := mind.GetOutput();
      result := Decode(outputMapping, out);
    }
  }
}
