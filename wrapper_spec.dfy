/**
 * The feature wrapper's bookkeeping as values: how declared features are laid
 * out on the network's input and output neurons, how a lesson is encoded as
 * 0/1 vectors, and how the network's outputs are read back by name.
 */
module WrapperSpec {

  datatype Option<T> = None | Some(value: T)

  // ------------------------------------------------------------------
  // Declarations and the slot mapping
  // ------------------------------------------------------------------

  /**
   * A declared property: a scalar (one slot, recorded under its own VALUE,
   * not under its array key) or a list of options (one slot per option,
   * recorded under the array key).
   */
  datatype Property = Scalar(value: string) | Options(options: seq<string>)

  /** A declaration entry: its array key and its property. */
  type Feature = (string, Property)

  /** Where a name's slots are: one slot, or one slot per option. */
  datatype Entry = Slot(index: int) | Slots(indices: map<string, int>)

  type Mapping = map<string, Entry>

  /** A place in a mapping that can hold a slot index. */
  datatype Place = Whole(name: string) | Member(name: string, option: string)

  /** The slot index recorded at `p`, if any. */
  function IndexAt(m: Mapping, p: Place): Option<int>
  {
    match p
    case Whole(name) =>
      if name in m && m[name].Slot? then Some(m[name].index) else None
    case Member(name, option) =>
      if name in m && m[name].Slots? && option in m[name].indices then Some(m[name].indices[option]) else None
  }

  /** Every recorded slot index lies in [0, n). */
  ghost predicate Bounded(m: Mapping, n: int)
  {
    forall p :: IndexAt(m, p).Some? ==> 0 <= IndexAt(m, p).value < n
  }

  /** No slot index is recorded at two places. */
  ghost predicate Injective(m: Mapping)
  {
    forall p, q :: p != q && IndexAt(m, p).Some? && IndexAt(m, q).Some? ==> IndexAt(m, p) != IndexAt(m, q)
  }

  /** Slot `i` is recorded at some place of `m`. */
  ghost predicate Recorded(m: Mapping, i: int)
  {
    exists p :: IndexAt(m, p) == Some(i)
  }

  /**
   * Record option `option` of group `name` at slot `index`.  When `name`
   * already holds a single slot (a scalar declared with that value), the
   * assignment cannot index into it and nothing is recorded.
   */
  function DeclareOption(m: Mapping, name: string, option: string, index: int): (r: Mapping)
    ensures IndexAt(r, Member(name, option)) == if name in m && m[name].Slot? then None else Some(index)
    ensures forall p :: p != Member(name, option) ==> IndexAt(r, p) == IndexAt(m, p)
  {
    if name in m && m[name].Slot? then m
    else
      var group := if name in m then m[name].indices else map[];
      m[name := Slots(group[option := index])]
  }

  /** Append one zero slot per option, in order, recording each under `name`. */
  function DeclareOptions(slots: seq<int>, m: Mapping, name: string, options: seq<string>): (r: (seq<int>, Mapping))
    decreases |options|
  {
    if options == [] then (slots, m)
    else
      var before := DeclareOptions(slots, m, name, options[..|options| - 1]);
      (before.0 + [0], DeclareOption(before.1, name, options[|options| - 1], |before.0|))
  }

  /** Append the slots of one declaration entry. */
  function DeclareFeature(slots: seq<int>, m: Mapping, f: Feature): (seq<int>, Mapping)
  {
    match f.1
    case Scalar(value) => (slots + [0], m[value := Slot(|slots|)])
    case Options(options) => DeclareOptions(slots, m, f.0, options)
  }

  /** Append the slots of every entry, in declaration order. */
  function Declare(slots: seq<int>, m: Mapping, features: seq<Feature>): (seq<int>, Mapping)
    decreases |features|
  {
    if features == [] then (slots, m)
    else
      var before := Declare(slots, m, features[..|features| - 1]);
      DeclareFeature(before.0, before.1, features[|features| - 1])
  }

  /** Number of slots an entry takes. */
  function FeatureWidth(f: Feature): nat
  {
    match f.1
    case Scalar(_) => 1
    case Options(options) => |options|
  }

  /** Number of slots the entries take together. */
  function Width(features: seq<Feature>): nat
    decreases |features|
  {
    if features == [] then 0 else Width(features[..|features| - 1]) + FeatureWidth(features[|features| - 1])
  }

  function Zeros(n: nat): (r: seq<int>)
    ensures |r| == n && forall i :: 0 <= i < n ==> r[i] == 0
  {
    seq(n, _ => 0)
  }

  /** Declaring options appends exactly one zero per option. */
  lemma {:induction false} DeclareOptionsSlots(slots: seq<int>, m: Mapping, name: string, options: seq<string>)
    ensures DeclareOptions(slots, m, name, options).0 == slots + Zeros(|options|)
    decreases |options|
  {
    if options != [] {
      DeclareOptionsSlots(slots, m, name, options[..|options| - 1]);
    }
  }

  /** Declaring appends exactly `Width(features)` zero slots and changes no existing slot. */
  lemma {:induction false} DeclareSlots(slots: seq<int>, m: Mapping, features: seq<Feature>)
    ensures Declare(slots, m, features).0 == slots + Zeros(Width(features))
    decreases |features|
  {
    if features != [] {
      var init := features[..|features| - 1];
      var f := features[|features| - 1];
      DeclareSlots(slots, m, init);
      var before := Declare(slots, m, init);
      match f.1
      case Scalar(_) =>
      case Options(options) => DeclareOptionsSlots(before.0, before.1, f.0, options);
    }
  }

  /** Declaring options keeps every index in range and recorded once, given it started so. */
  lemma {:induction false} DeclareOptionsSound(slots: seq<int>, m: Mapping, name: string, options: seq<string>)
    requires Bounded(m, |slots|) && Injective(m)
    ensures |DeclareOptions(slots, m, name, options).0| == |slots| + |options|
    ensures Bounded(DeclareOptions(slots, m, name, options).1, |DeclareOptions(slots, m, name, options).0|)
    ensures Injective(DeclareOptions(slots, m, name, options).1)
    decreases |options|
  {
    if options != [] {
      var init := options[..|options| - 1];
      DeclareOptionsSound(slots, m, name, init);
      var before := DeclareOptions(slots, m, name, init);
      RecordFresh(before.1, Member(name, options[|options| - 1]), |before.0|,
        DeclareOption(before.1, name, options[|options| - 1], |before.0|));
    }
  }

  /**
   * Recording the fresh index `i` at `at` (or nowhere), while every other
   * place keeps its index or loses it, keeps a bounded injective mapping so.
   */
  lemma RecordFresh(m: Mapping, at: Place, i: int, r: Mapping)
    requires Bounded(m, i) && Injective(m) && 0 <= i
    requires IndexAt(r, at) == Some(i) || IndexAt(r, at) == None
    requires forall p :: p != at ==> IndexAt(r, p) == IndexAt(m, p) || IndexAt(r, p) == None
    ensures Bounded(r, i + 1) && Injective(r)
  {
    forall p, q | p != q && IndexAt(r, p).Some? && IndexAt(r, q).Some?
      ensures IndexAt(r, p) != IndexAt(r, q)
    {
      if p != at && q != at {
        assert IndexAt(r, p) == IndexAt(m, p) && IndexAt(r, q) == IndexAt(m, q);
      }
    }
  }

  /**
   * Declaring keeps the mapping sound: every recorded index is a slot that
   * exists, and no slot is recorded at two places, whatever the names.
   */
  lemma {:induction false} DeclareSound(slots: seq<int>, m: Mapping, features: seq<Feature>)
    requires Bounded(m, |slots|) && Injective(m)
    ensures |Declare(slots, m, features).0| == |slots| + Width(features)
    ensures Bounded(Declare(slots, m, features).1, |Declare(slots, m, features).0|)
    ensures Injective(Declare(slots, m, features).1)
    decreases |features|
  {
    if features != [] {
      var init := features[..|features| - 1];
      var f := features[|features| - 1];
      DeclareSound(slots, m, init);
      var before := Declare(slots, m, init);
      match f.1
      case Scalar(value) =>
        var r := before.1[value := Slot(|before.0|)];
        forall p | p != Whole(value)
          ensures IndexAt(r, p) == IndexAt(before.1, p) || IndexAt(r, p) == None
        {
        }
        RecordFresh(before.1, Whole(value), |before.0|, r);
      case Options(options) =>
        DeclareOptionsSound(before.0, before.1, f.0, options);
    }
  }

  // ------------------------------------------------------------------
  // Declaration order
  // ------------------------------------------------------------------

  /** The name an entry is recorded under: a scalar's value, a group's key. */
  function Key(f: Feature): string
  {
    match f.1
    case Scalar(value) => value
    case Options(_) => f.0
  }

  /** Nothing is recorded under `name`. */
  ghost predicate NameFree(m: Mapping, name: string)
  {
    forall p: Place :: p.name == name ==> IndexAt(m, p) == None
  }

  predicate DistinctOptions(options: seq<string>)
  {
    forall a, b :: 0 <= a < b < |options| ==> options[a] != options[b]
  }

  /**
   * The entries do not collide: their names are pairwise different and not
   * yet in use, and no group lists an option twice.
   */
  ghost predicate Fresh(m: Mapping, features: seq<Feature>)
  {
    && (forall i, j :: 0 <= i < j < |features| ==> Key(features[i]) != Key(features[j]))
    && (forall i :: 0 <= i < |features| ==> NameFree(m, Key(features[i])))
    && (forall i :: 0 <= i < |features| && features[i].1.Options? ==> DistinctOptions(features[i].1.options))
  }

  /** The place of slot `k` of entry `f`: the scalar's own value, or option `k` of the group. */
  function PlaceOf(f: Feature, k: nat): Place
    requires k < FeatureWidth(f)
  {
    match f.1
    case Scalar(value) => Whole(value)
    case Options(options) => Member(f.0, options[k])
  }

  /** Entry `f` occupies the slots starting at `base`: slot `k` of the entry is slot `base + k`. */
  ghost predicate Placed(m: Mapping, f: Feature, base: int)
  {
    forall k :: 0 <= k < FeatureWidth(f) ==> IndexAt(m, PlaceOf(f, k)) == Some(base + k)
  }

  /** A placement survives any change that leaves the entry's own name alone. */
  lemma PlacedKept(a: Mapping, b: Mapping, f: Feature, base: int)
    requires Placed(a, f, base)
    requires forall p: Place :: p.name == Key(f) ==> IndexAt(b, p) == IndexAt(a, p)
    ensures Placed(b, f, base)
  {
    forall k | 0 <= k < FeatureWidth(f)
      ensures IndexAt(b, PlaceOf(f, k)) == Some(base + k)
    {
      assert PlaceOf(f, k).name == Key(f);
    }
  }

  /** Options of a fresh group take consecutive slots in the order listed; other names are untouched. */
  lemma {:induction false} DeclareOptionsPlaced(slots: seq<int>, m: Mapping, name: string, options: seq<string>)
    requires NameFree(m, name) && DistinctOptions(options)
    ensures |DeclareOptions(slots, m, name, options).0| == |slots| + |options|
    ensures forall k :: 0 <= k < |options| ==>
      IndexAt(DeclareOptions(slots, m, name, options).1, Member(name, options[k])) == Some(|slots| + k)
    ensures IndexAt(DeclareOptions(slots, m, name, options).1, Whole(name)) == None
    ensures forall p: Place :: p.name != name ==> IndexAt(DeclareOptions(slots, m, name, options).1, p) == IndexAt(m, p)
    decreases |options|
  {
    DeclareOptionsSlots(slots, m, name, options);
    if options != [] {
      var init := options[..|options| - 1];
      var last := options[|options| - 1];
      DeclareOptionsPlaced(slots, m, name, init);
      DeclareOptionsSlots(slots, m, name, init);
      var before := DeclareOptions(slots, m, name, init);
      var r := DeclareOption(before.1, name, last, |before.0|);
      assert IndexAt(before.1, Whole(name)) == None;
      forall k | 0 <= k < |options|
        ensures IndexAt(r, Member(name, options[k])) == Some(|slots| + k)
      {
        if k < |init| {
          assert options[k] == init[k] != last;
        }
      }
    }
  }

  /** An entry under a free name lands in the slots right after the existing ones and touches no other name. */
  lemma DeclareFeaturePlaced(slots: seq<int>, m: Mapping, f: Feature)
    requires NameFree(m, Key(f))
    requires f.1.Options? ==> DistinctOptions(f.1.options)
    ensures |DeclareFeature(slots, m, f).0| == |slots| + FeatureWidth(f)
    ensures Placed(DeclareFeature(slots, m, f).1, f, |slots|)
    ensures forall p: Place :: p.name != Key(f) ==> IndexAt(DeclareFeature(slots, m, f).1, p) == IndexAt(m, p)
  {
    match f.1
    case Scalar(value) =>
    case Options(options) =>
      DeclareOptionsPlaced(slots, m, f.0, options);
  }

  /** Declaring leaves every place alone whose name is not one of the entries' names. */
  lemma {:induction false} DeclareKeeps(slots: seq<int>, m: Mapping, features: seq<Feature>, p: Place)
    requires Fresh(m, features)
    requires forall i :: 0 <= i < |features| ==> p.name != Key(features[i])
    ensures IndexAt(Declare(slots, m, features).1, p) == IndexAt(m, p)
    decreases |features|
  {
    if features != [] {
      var init := features[..|features| - 1];
      FreshPrefix(m, features);
      assert p.name != Key(features[|features| - 1]);
      forall i | 0 <= i < |init| ensures p.name != Key(init[i]) {
        assert init[i] == features[i];
      }
      DeclareKeeps(slots, m, init, p);
      LastNameFree(slots, m, features);
      DeclareFeaturePlaced(Declare(slots, m, init).0, Declare(slots, m, init).1, features[|features| - 1]);
    }
  }

  lemma FreshPrefix(m: Mapping, features: seq<Feature>)
    requires Fresh(m, features) && features != []
    ensures Fresh(m, features[..|features| - 1])
  {
    var init := features[..|features| - 1];
    forall i | 0 <= i < |init| ensures init[i] == features[i] { }
  }

  /** The last entry's name is still free once the entries before it are declared. */
  lemma {:induction false} LastNameFree(slots: seq<int>, m: Mapping, features: seq<Feature>)
    requires Fresh(m, features) && features != []
    ensures NameFree(Declare(slots, m, features[..|features| - 1]).1, Key(features[|features| - 1]))
    decreases |features|, 0
  {
    var init := features[..|features| - 1];
    var key := Key(features[|features| - 1]);
    FreshPrefix(m, features);
    forall p: Place | p.name == key ensures IndexAt(Declare(slots, m, init).1, p) == None {
      forall i | 0 <= i < |init| ensures p.name != Key(init[i]) {
        assert init[i] == features[i];
      }
      DeclareKeeps(slots, m, init, p);
    }
  }

  /** Entry `i` of entries with fresh, distinct names takes the slots from `|slots| + Width(features[..i])` on. */
  lemma {:induction false} DeclarePlacedAt(slots: seq<int>, m: Mapping, features: seq<Feature>, i: nat)
    requires Fresh(m, features) && i < |features|
    ensures Placed(Declare(slots, m, features).1, features[i], |slots| + Width(features[..i]))
    decreases |features|
  {
    var init := features[..|features| - 1];
    var f := features[|features| - 1];
    FreshPrefix(m, features);
    LastNameFree(slots, m, features);
    var before := Declare(slots, m, init);
    var r := Declare(slots, m, features);
    DeclareFeaturePlaced(before.0, before.1, f);
    var base := |slots| + Width(features[..i]);
    if i < |init| {
      DeclarePlacedAt(slots, m, init, i);
      assert features[..i] == init[..i];
      assert init[i] == features[i];
      assert Key(features[i]) != Key(f);
      PlacedKept(before.1, r.1, features[i], base);
    } else {
      DeclareSlots(slots, m, init);
      assert features[..i] == init;
      assert base == |before.0|;
    }
  }

  /**
   * When the entries' names are fresh and distinct, every slot they add is
   * recorded somewhere.  Together with DeclareSound: declared from scratch,
   * the recorded indices are exactly 0 .. Width(features) - 1, each once.
   */
  lemma {:induction false} DeclareCovers(slots: seq<int>, m: Mapping, features: seq<Feature>)
    requires Fresh(m, features)
    ensures forall j :: |slots| <= j < |Declare(slots, m, features).0| ==> Recorded(Declare(slots, m, features).1, j)
    decreases |features|
  {
    if features != [] {
      var init := features[..|features| - 1];
      var f := features[|features| - 1];
      FreshPrefix(m, features);
      DeclareCovers(slots, m, init);
      LastNameFree(slots, m, features);
      var before := Declare(slots, m, init);
      var r := Declare(slots, m, features);
      DeclareFeaturePlaced(before.0, before.1, f);
      assert r == DeclareFeature(before.0, before.1, f);
      forall j | |slots| <= j < |r.0|
        ensures Recorded(r.1, j)
      {
        if j < |before.0| {
          assert Recorded(before.1, j);
          var p :| IndexAt(before.1, p) == Some(j);
          assert p.name != Key(f);
          assert IndexAt(r.1, p) == Some(j);
        } else {
          assert IndexAt(r.1, PlaceOf(f, j - |before.0|)) == Some(j);
        }
      }
    } else {
      assert Declare(slots, m, features).0 == slots;
    }
  }

  // ------------------------------------------------------------------
  // Encoding a lesson
  // ------------------------------------------------------------------

  /** A value given for a name in a lesson: a scalar of some PHP type, or a list of options. */
  datatype Datum = Text(text: string) | Flag(flag: bool) | Number(number: real) | Many(items: seq<string>)

  /** One side of a lesson: named values, in the order given. */
  type Side = seq<(string, Datum)>

  /** A lesson as the wrapper takes it: each side may be absent. */
  datatype NamedLesson = NamedLesson(input: Option<Side>, output: Option<Side>)

  /** The scalar test `value === true || value == 1` (numeric strings other than "1" are not modelled). */
  predicate LooselyOne(d: Datum)
  {
    match d
    case Flag(b) => b
    case Number(x) => x == 1.0
    case Text(s) => s == "1"
    case Many(_) => false
  }

  /** Every entry of `v` is 0 or 1. */
  predicate Binary(v: seq<int>)
  {
    forall i :: 0 <= i < |v| ==> v[i] == 0 || v[i] == 1
  }

  /** Set the slot `at` to 1, if there is one. */
  function SetOne(vec: seq<int>, at: Option<int>): (r: seq<int>)
    requires at.Some? ==> 0 <= at.value < |vec|
    ensures |r| == |vec|
    ensures forall i :: 0 <= i < |vec| ==> r[i] == if at == Some(i) then 1 else vec[i]
  {
    if at.Some? then vec[at.value := 1] else vec
  }

  /** Mark every listed option of group `name` that the mapping knows; the others are ignored. */
  function EncodeItems(vec: seq<int>, m: Mapping, name: string, items: seq<string>): (r: seq<int>)
    requires Bounded(m, |vec|)
    ensures |r| == |vec|
    ensures Binary(vec) ==> Binary(r)
    ensures forall i :: 0 <= i < |vec| && !Recorded(m, i) ==> r[i] == vec[i]
    decreases |items|
  {
    if items == [] then vec
    else EncodeItems(SetOne(vec, IndexAt(m, Member(name, items[0]))), m, name, items[1..])
  }

  /**
   * Encode one named value: a list marks its options; a scalar under a
   * single-slot name sets that slot to 1 or 0 by the loose test; a text
   * under a group marks that option; anything the mapping does not know is
   * ignored.
   */
  function EncodeDatum(vec: seq<int>, m: Mapping, name: string, d: Datum): (r: seq<int>)
    requires Bounded(m, |vec|)
    ensures |r| == |vec|
    ensures Binary(vec) ==> Binary(r)
    ensures forall i :: 0 <= i < |vec| && !Recorded(m, i) ==> r[i] == vec[i]
  {
    if d.Many? then EncodeItems(vec, m, name, d.items)
    else
      match IndexAt(m, Whole(name))
      case Some(i) => vec[i := if LooselyOne(d) then 1 else 0]
      case None => if d.Text? then SetOne(vec, IndexAt(m, Member(name, d.text))) else vec
  }

  /** Encode the named values of one side, in order. */
  function EncodeSide(vec: seq<int>, m: Mapping, side: Side): (r: seq<int>)
    requires Bounded(m, |vec|)
    ensures |r| == |vec|
    ensures Binary(vec) ==> Binary(r)
    ensures forall i :: 0 <= i < |vec| && !Recorded(m, i) ==> r[i] == vec[i]
    decreases |side|
  {
    if side == [] then vec
    else EncodeSide(EncodeDatum(vec, m, side[0].0, side[0].1), m, side[1..])
  }

  /** Encode an optional side onto the slot vector `vec`; an absent side leaves it as it is. */
  function Encode(vec: seq<int>, m: Mapping, side: Option<Side>): (r: seq<int>)
    requires Bounded(m, |vec|)
    ensures |r| == |vec|
    ensures Binary(vec) ==> Binary(r)
    ensures side.None? ==> r == vec
  {
    if side.None? then vec else EncodeSide(vec, m, side.value)
  }

  // ------------------------------------------------------------------
  // Reading the outputs back
  // ------------------------------------------------------------------

  /** What a name reads as: one value, or one value per option. */
  datatype Reading = One(value: real) | Each(values: map<string, real>)

  /** The value read at place `p`, if the reading has one there. */
  function ReadAt(r: map<string, Reading>, p: Place): Option<real>
  {
    match p
    case Whole(name) =>
      if name in r && r[name].One? then Some(r[name].value) else None
    case Member(name, option) =>
      if name in r && r[name].Each? && option in r[name].values then Some(r[name].values[option]) else None
  }

  /**
   * The mapping with every recorded slot index replaced by the network's
   * output at that slot: same names, same shape.
   */
  function Decode(m: Mapping, out: seq<real>): (r: map<string, Reading>)
    requires Bounded(m, |out|)
    ensures r.Keys == m.Keys
    ensures forall name :: name in m ==> (r[name].One? <==> m[name].Slot?)
    ensures forall name :: name in m && m[name].Slots? ==> r[name].values.Keys == m[name].indices.Keys
    ensures forall p :: ReadAt(r, p) == if IndexAt(m, p).Some? then Some(out[IndexAt(m, p).value]) else None
  {
    map name | name in m ::
      match m[name]
      case Slot(i) =>
        assert IndexAt(m, Whole(name)) == Some(i);
        One(out[i])
      case Slots(group) =>
        Each(map option | option in group ::
          assert IndexAt(m, Member(name, option)) == Some(group[option]);
          out[group[option]])
  }

  function AsReals(v: seq<int>): (r: seq<real>)
    ensures |r| == |v| && forall i :: 0 <= i < |v| ==> r[i] == v[i] as real
  {
    seq(|v|, i requires 0 <= i < |v| => v[i] as real)
  }

  /**
   * The places a named value marks with 1: the single slot when the loose
   * test passes, the option a text names, or every option a list names.
   */
  predicate Marks(m: Mapping, name: string, d: Datum, p: Place)
  {
    if d.Many? then p.Member? && p.name == name && p.option in d.items
    else if IndexAt(m, Whole(name)).Some? then p == Whole(name) && LooselyOne(d)
    else d.Text? && p == Member(name, d.text)
  }

  /** Encoding a list marks exactly the recorded options it names. */
  lemma {:induction false} EncodeItemsMarks(vec: seq<int>, m: Mapping, name: string, items: seq<string>, p: Place)
    requires Bounded(m, |vec|) && Injective(m) && IndexAt(m, p).Some?
    ensures EncodeItems(vec, m, name, items)[IndexAt(m, p).value] ==
      if p.Member? && p.name == name && p.option in items then 1 else vec[IndexAt(m, p).value]
    decreases |items|
  {
    if items != [] {
      var i := IndexAt(m, p).value;
      var hit := Member(name, items[0]);
      var next := SetOne(vec, IndexAt(m, hit));
      EncodeItemsMarks(next, m, name, items[1..], p);
      assert next[i] == if hit == p then 1 else vec[i];
      assert p.Member? && p.name == name && p.option in items <==>
        p == hit || (p.Member? && p.name == name && p.option in items[1..]);
    }
  }

  /**
   * Encoding one named value onto the all-zero vector and reading it back
   * through the output decoding gives 1 at exactly the places the value
   * marks and 0 at every other recorded place.
   */
  lemma EncodeReadBack(m: Mapping, n: nat, name: string, d: Datum)
    requires Bounded(m, n) && Injective(m)
    ensures forall p :: IndexAt(m, p).Some? ==>
      ReadAt(Decode(m, AsReals(EncodeDatum(Zeros(n), m, name, d))), p) == Some(if Marks(m, name, d, p) then 1.0 else 0.0)
  {
    var enc := EncodeDatum(Zeros(n), m, name, d);
    forall p | IndexAt(m, p).Some?
      ensures enc[IndexAt(m, p).value] == if Marks(m, name, d, p) then 1 else 0
    {
      if d.Many? {
        EncodeItemsMarks(Zeros(n), m, name, d.items, p);
      }
    }
  }

  /** A slot of a group or a single-value name whose loose test fails is set to 0 by the value. */
  predicate Clears(m: Mapping, name: string, d: Datum, p: Place)
  {
    !d.Many? && IndexAt(m, Whole(name)).Some? && p == Whole(name) && !LooselyOne(d)
  }

  /** Encoding one named value sets the slot of `p` to 1 where it marks `p`, to 0 where it clears it, and leaves it otherwise. */
  lemma EncodeDatumAt(vec: seq<int>, m: Mapping, name: string, d: Datum, p: Place)
    requires Bounded(m, |vec|) && Injective(m) && IndexAt(m, p).Some?
    ensures EncodeDatum(vec, m, name, d)[IndexAt(m, p).value] ==
      if Marks(m, name, d, p) then 1 else if Clears(m, name, d, p) then 0 else vec[IndexAt(m, p).value]
  {
    if d.Many? {
      EncodeItemsMarks(vec, m, name, d.items, p);
    }
  }

  /** No two named values of a side share a name, as the keys of a PHP array. */
  predicate DistinctNames(side: Side)
  {
    forall j, k :: 0 <= j < k < |side| ==> side[j].0 != side[k].0
  }

  /** Some named value of the side marks `p`. */
  predicate MarkedBy(m: Mapping, side: Side, p: Place)
  {
    exists j :: 0 <= j < |side| && Marks(m, side[j].0, side[j].1, p)
  }

  /** Some named value of the side clears `p`. */
  predicate ClearedBy(m: Mapping, side: Side, p: Place)
  {
    exists j :: 0 <= j < |side| && Clears(m, side[j].0, side[j].1, p)
  }

  /**
   * Encoding a side whose names are distinct sets each recorded slot by the
   * one value named like it: 1 where it marks the slot, 0 where it clears it,
   * and leaves every other slot alone.
   */
  lemma {:induction false} EncodeSideAt(vec: seq<int>, m: Mapping, side: Side, p: Place)
    requires Bounded(m, |vec|) && Injective(m) && IndexAt(m, p).Some? && DistinctNames(side)
    ensures EncodeSide(vec, m, side)[IndexAt(m, p).value] ==
      if MarkedBy(m, side, p) then 1 else if ClearedBy(m, side, p) then 0 else vec[IndexAt(m, p).value]
    decreases |side|
  {
    if side != [] {
      var (name, d) := side[0];
      var rest := side[1..];
      EncodeDatumAt(vec, m, name, d, p);
      DistinctTail(side);
      EncodeSideAt(EncodeDatum(vec, m, name, d), m, rest, p);
      SplitFirst(m, side, p);
      if p.name == name {
        NoneNamed(m, side, p);
      }
    }
  }

  /** The tail of a side with distinct names has distinct names. */
  lemma DistinctTail(side: Side)
    requires side != [] && DistinctNames(side)
    ensures DistinctNames(side[1..])
  {
    forall j, k | 0 <= j < k < |side[1..]| ensures side[1..][j].0 != side[1..][k].0 {
      assert side[1..][j] == side[j + 1] && side[1..][k] == side[k + 1];
    }
  }

  /** A side marks (clears) `p` when its first value does or the rest does; a value only touches places of its own name. */
  lemma SplitFirst(m: Mapping, side: Side, p: Place)
    requires side != []
    ensures MarkedBy(m, side, p) <==> Marks(m, side[0].0, side[0].1, p) || MarkedBy(m, side[1..], p)
    ensures ClearedBy(m, side, p) <==> Clears(m, side[0].0, side[0].1, p) || ClearedBy(m, side[1..], p)
    ensures Marks(m, side[0].0, side[0].1, p) || Clears(m, side[0].0, side[0].1, p) ==> p.name == side[0].0
  {
    if MarkedBy(m, side, p) {
      var j :| 0 <= j < |side| && Marks(m, side[j].0, side[j].1, p);
      if j > 0 { assert side[1..][j - 1] == side[j]; }
    }
    if MarkedBy(m, side[1..], p) {
      var j :| 0 <= j < |side[1..]| && Marks(m, side[1..][j].0, side[1..][j].1, p);
      assert side[j + 1] == side[1..][j];
    }
    if ClearedBy(m, side, p) {
      var j :| 0 <= j < |side| && Clears(m, side[j].0, side[j].1, p);
      if j > 0 { assert side[1..][j - 1] == side[j]; }
    }
    if ClearedBy(m, side[1..], p) {
      var j :| 0 <= j < |side[1..]| && Clears(m, side[1..][j].0, side[1..][j].1, p);
      assert side[j + 1] == side[1..][j];
    }
  }

  /** When the first value carries the name of `p`, no later value marks or clears `p`. */
  lemma NoneNamed(m: Mapping, side: Side, p: Place)
    requires side != [] && DistinctNames(side) && p.name == side[0].0
    ensures !MarkedBy(m, side[1..], p) && !ClearedBy(m, side[1..], p)
  {
    forall j | 0 <= j < |side[1..]|
      ensures !Marks(m, side[1..][j].0, side[1..][j].1, p) && !Clears(m, side[1..][j].0, side[1..][j].1, p)
    {
      assert side[1..][j] == side[j + 1];
    }
  }

  /** The slot vector holds 1 at exactly the recorded slots the side marks, and 0 everywhere else. */
  ghost predicate EncodedAs(v: seq<int>, m: Mapping, side: Side)
  {
    && (forall p :: IndexAt(m, p).Some? ==> 0 <= IndexAt(m, p).value < |v| && v[IndexAt(m, p).value] == if MarkedBy(m, side, p) then 1 else 0)
    && (forall i :: 0 <= i < |v| && !Recorded(m, i) ==> v[i] == 0)
  }

  /**
   * A whole side with distinct names, encoded onto the all-zero vector, sets
   * exactly the slots its values mark; read back through the output
   * decoding, each recorded place gives 1 or 0 accordingly.
   */
  lemma EncodeSideOnZeros(m: Mapping, n: nat, side: Side)
    requires Bounded(m, n) && Injective(m) && DistinctNames(side)
    ensures EncodedAs(EncodeSide(Zeros(n), m, side), m, side)
    ensures forall p :: IndexAt(m, p).Some? ==>
      ReadAt(Decode(m, AsReals(EncodeSide(Zeros(n), m, side))), p) == Some(if MarkedBy(m, side, p) then 1.0 else 0.0)
  {
    var enc := EncodeSide(Zeros(n), m, side);
    forall p | IndexAt(m, p).Some?
      ensures enc[IndexAt(m, p).value] == if MarkedBy(m, side, p) then 1 else 0
    {
      EncodeSideAt(Zeros(n), m, side, p);
    }
  }
}
