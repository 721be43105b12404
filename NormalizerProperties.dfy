/**
 * What the normaliser guarantees: which registries the constructor
 * accepts, which trees can be normalised, and that denormalising a
 * normalised tree gives back the tree, except for the bounds of `Limit`,
 * which the tagged array does not carry.
 */
module NormalizerProperties {
  import opened Values
  import opened Conditions
  import opened ConditionProperties
  import opened Normalizer

  // ---------------------------------------------------------------------
  // Construction

  /**
   * The registry is accepted iff every class is a condition class and no
   * class is registered twice; the reverse map then sends each registered
   * class to its name.
   */
  lemma {:induction false} ReverseMapMeaning(cs: seq<Registration>)
    ensures ReverseMap(cs).Success? <==>
      && (forall i | 0 <= i < |cs| :: !cs[i].target.Foreign?)
      && (forall i, j | 0 <= i < j < |cs| :: cs[i].target != cs[j].target)
    ensures ReverseMap(cs).Success? ==>
      && (forall c :: c in ReverseMap(cs).value <==> exists i | 0 <= i < |cs| :: cs[i].target == c)
      && (forall i | 0 <= i < |cs| :: ReverseMap(cs).value[cs[i].target] == cs[i].name)
    decreases |cs|
  {
    if |cs| > 0 {
      var init := cs[..|cs| - 1];
      var reg := cs[|cs| - 1];
      ReverseMapMeaning(init);
      assert forall i | 0 <= i < |init| :: init[i] == cs[i];
      match ReverseMap(init)
      case Failure(_) =>
        assert !(forall i | 0 <= i < |cs| :: !cs[i].target.Foreign?) ||
          !(forall i, j | 0 <= i < j < |cs| :: cs[i].target != cs[j].target);
      case Success(m) =>
        if reg.target in m {
          var i :| 0 <= i < |init| && init[i].target == reg.target;
          assert cs[i].target == cs[|cs| - 1].target;
        }
    }
  }

  /** The error names the offending registration: a class that is not a condition, or the two names of one class. */
  lemma {:induction false} ReverseMapErrors(cs: seq<Registration>)
    ensures ReverseMap(cs).Failure? ==> !ReverseMap(cs).error.TypeEqualsData?
    ensures ReverseMap(cs).Failure? && ReverseMap(cs).error.NotACondition? ==>
      var e := ReverseMap(cs).error;
      e.target.Foreign? && exists i | 0 <= i < |cs| :: cs[i].target == e.target
    ensures ReverseMap(cs).Failure? && ReverseMap(cs).error.DuplicateMapping? ==>
      var e := ReverseMap(cs).error;
      exists i, j | 0 <= i < j < |cs| :: cs[i] == Registration(e.previous, e.target) && cs[j] == Registration(e.name, e.target)
    decreases |cs|
  {
    if |cs| > 0 {
      var init := cs[..|cs| - 1];
      var reg := cs[|cs| - 1];
      ReverseMapErrors(init);
      ReverseMapMeaning(init);
      assert forall i | 0 <= i < |init| :: init[i] == cs[i];
      match ReverseMap(init)
      case Failure(e) =>
        if e.DuplicateMapping? {
          var i, j :| 0 <= i < j < |init| && init[i] == Registration(e.previous, e.target) && init[j] == Registration(e.name, e.target);
          assert cs[i] == init[i] && cs[j] == init[j];
        }
      case Success(m) =>
        if !reg.target.Foreign? && reg.target in m {
          var i :| 0 <= i < |init| && init[i].target == reg.target;
          assert m[init[i].target] == init[i].name;
          assert cs[i] == Registration(m[reg.target], reg.target);
        }
    }
  }

  /**
   * The constructor accepts exactly the registries of distinct condition
   * classes with a type key and a data key that differ as strings; the
   * key comparison comes first.
   */
  lemma ConstructorAccepts(cs: seq<Registration>, typeKey: ArrayKey, dataKey: ArrayKey)
    ensures MakeNormalizer(cs, typeKey, dataKey).Success? <==>
      && KeyString(typeKey) != KeyString(dataKey)
      && (forall i | 0 <= i < |cs| :: !cs[i].target.Foreign?)
      && (forall i, j | 0 <= i < j < |cs| :: cs[i].target != cs[j].target)
    ensures KeyString(typeKey) == KeyString(dataKey) ==> MakeNormalizer(cs, typeKey, dataKey) == Failure(TypeEqualsData)
    ensures MakeNormalizer(cs, typeKey, dataKey).Success? ==>
      var nz := MakeNormalizer(cs, typeKey, dataKey).value;
      && nz.conditions == cs && nz.typeKey == typeKey && nz.dataKey == dataKey
      && (forall c :: c in nz.names <==> exists i | 0 <= i < |cs| :: cs[i].target == c)
      && (forall i | 0 <= i < |cs| :: nz.names[cs[i].target] == cs[i].name)
  {
    ReverseMapMeaning(cs);
  }

  /**
   * A normaliser the constructor built from a PHP array: the array's keys,
   * which are the registered names, are distinct.
   */
  predicate ValidNormalizer(nz: Normalizer) {
    && MakeNormalizer(nz.conditions, nz.typeKey, nz.dataKey) == Success(nz)
    && forall i, j | 0 <= i < j < |nz.conditions| :: nz.conditions[i].name != nz.conditions[j].name
  }

  /** The default registry is accepted and builds the default normaliser. */
  lemma DefaultNormalizerBuilt()
    ensures MakeNormalizer(DefaultConditions(), DEFAULT_TYPE, DEFAULT_DATA) == Success(DefaultNormalizer())
    ensures ValidNormalizer(DefaultNormalizer())
  {
    var cs := DefaultConditions();
    assert cs[..2] == [cs[0], cs[1]];
    assert cs[..2][..1] == [cs[0]];
    assert cs[..2][..1][..0] == [];
    assert ReverseMap([cs[0]]) == Success(map[AllClass := "all"]);
    assert ReverseMap([cs[0], cs[1]]) == Success(map[AllClass := "all", LeastOneClass := "least_one"]);
  }

  /** In a valid normaliser, the name registered for a class looks up that class. */
  lemma LookupRegistered(nz: Normalizer, c: ClassRef)
    requires ValidNormalizer(nz) && c in nz.names
    ensures !c.Foreign?
    ensures TypeClass(nz, StrV(nz.names[c])) == Some(c)
  {
    var cs := nz.conditions;
    ReverseMapMeaning(cs);
    var i :| 0 <= i < |cs| && cs[i].target == c;
    var r := Lookup(cs, nz.names[c]);
    assert cs[i].name == nz.names[c];
    var j :| 0 <= j < |cs| && cs[j] == Registration(nz.names[c], r.value);
    assert cs[i].name == cs[j].name;
  }

  // ---------------------------------------------------------------------
  // Which trees can be normalised

  /**
   * Every class in the tree is registered, and every leaf is made of
   * ints, strings, bools and arrays and does not read back as a condition.
   */
  predicate Encodable(nz: Normalizer, n: Node)
    decreases n, 1
  {
    && ClassOf(n.kind) in nz.names
    && forall i | 0 <= i < |n.elements| :: ChildEncodable(nz, n.elements[i])
  }

  predicate ChildEncodable(nz: Normalizer, c: Child)
    decreases c
  {
    match c
    case Leaf(v) => Normalisable(v) && !LooksLikeNode(nz, v)
    case Cond(d) => Encodable(nz, d)
  }

  /** A tree can be normalised iff it is `Encodable`. */
  lemma {:induction false} EncodeSucceedsIff(nz: Normalizer, n: Node)
    ensures Encode(nz, n).Success? <==> Encodable(nz, n)
    decreases n, |n.elements| + 1
  {
    EncodeElementsShape(nz, n, |n.elements|);
  }

  lemma {:induction false} EncodeChildSucceedsIff(nz: Normalizer, c: Child)
    ensures EncodeChild(nz, c).Success? <==> ChildEncodable(nz, c)
    decreases c
  {
    if c.Cond? {
      EncodeSucceedsIff(nz, c.node);
    }
  }

  /**
   * The first `i` children normalise iff each of them can be normalised,
   * and then child `k` sits under the integer key `k`.
   */
  lemma {:induction false} EncodeElementsShape(nz: Normalizer, n: Node, i: nat)
    requires i <= |n.elements|
    ensures EncodeElements(nz, n, i).Success? <==> forall k | 0 <= k < i :: ChildEncodable(nz, n.elements[k])
    ensures EncodeElements(nz, n, i).Success? ==>
      && |EncodeElements(nz, n, i).value| == i
      && forall k | 0 <= k < i ::
           EncodeChild(nz, n.elements[k]).Success? &&
           EncodeElements(nz, n, i).value[k] == Entry(IntKey(k), EncodeChild(nz, n.elements[k]).value)
    decreases n, i
  {
    if i > 0 {
      EncodeElementsShape(nz, n, i - 1);
      EncodeChildSucceedsIff(nz, n.elements[i - 1]);
    }
  }

  /** A normalised condition is the tagged array of its registered name and its normalised children. */
  lemma EncodeShape(nz: Normalizer, n: Node)
    requires Encode(nz, n).Success?
    ensures exists data: seq<Entry> ::
      && Encode(nz, n).value == Tagged(nz, nz.names[ClassOf(n.kind)], data)
      && |data| == |n.elements|
      && forall k | 0 <= k < |data| :: data[k].key == IntKey(k)
  {
    EncodeElementsShape(nz, n, |n.elements|);
    var data := EncodeElements(nz, n, |n.elements|).value;
    assert Encode(nz, n).value == Tagged(nz, nz.names[ClassOf(n.kind)], data);
  }

  /**
   * With the name it uses for `get_elements`, `normalize` fails for every
   * tree, including every tree the corrected version normalises.
   */
  lemma NormalizeAsWrittenFails(nz: Normalizer, n: Node)
    ensures EncodeAsWritten(nz, n).Failure?
    ensures Encodable(nz, n) ==>
      Encode(nz, n).Success? && EncodeAsWritten(nz, n) == Failure(UndefinedMethod("get_elements"))
    ensures !Encodable(nz, n) ==> Encode(nz, n).Failure?
  {
    EncodeSucceedsIff(nz, n);
  }

  // ---------------------------------------------------------------------
  // The round trip

  /** The tree `denormalize` rebuilds: the same children, each variant with its default configuration. */
  function Reconstructed(n: Node): Node
    decreases n, |n.elements| + 1
  {
    Build(KindOf(ClassOf(n.kind)), ReconstructedChildren(n, |n.elements|))
  }

  function ReconstructedChild(c: Child): Child
    decreases c
  {
    match c
    case Leaf(v) => Leaf(v)
    case Cond(d) => Cond(Reconstructed(d))
  }

  function ReconstructedChildren(n: Node, i: nat): seq<Child>
    requires i <= |n.elements|
    decreases n, i
  {
    if i == 0 then []
    else ReconstructedChildren(n, i - 1) + [ReconstructedChild(n.elements[i - 1])]
  }

  /** Keys that differ as strings differ. */
  lemma DistinctKeys(nz: Normalizer)
    requires ValidNormalizer(nz)
    ensures nz.typeKey != nz.dataKey
  {
  }

  /** The tagged array reads back: both keys present, holding the name and the data. */
  lemma TaggedFields(nz: Normalizer, name: string, data: seq<Entry>)
    requires nz.typeKey != nz.dataKey
    ensures LooksLikeNode(nz, Tagged(nz, name, data))
    ensures Field(Tagged(nz, name, data).entries, nz.typeKey) == StrV(name)
    ensures Field(Tagged(nz, name, data).entries, nz.dataKey) == ArrV(data)
  {
    var es := Tagged(nz, name, data).entries;
    assert FindKey(es, nz.typeKey) == Some(0);
    assert es[1..] == [Entry(nz.dataKey, ArrV(data))];
    assert FindKey(es[1..], nz.dataKey) == Some(0);
    assert FindKey(es, nz.dataKey) == Some(1);
  }

  /**
   * Denormalising a normalised tree gives back the tree with every
   * `Limit` reset to its default, unbounded configuration.
   */
  lemma {:induction false} RoundTrip(nz: Normalizer, n: Node)
    requires ValidNormalizer(nz) && Encode(nz, n).Success?
    ensures Encode(nz, n).value.ArrV?
    ensures Decode(nz, Encode(nz, n).value) == Success(Reconstructed(n))
    decreases n, |n.elements| + 1
  {
    var target := ClassOf(n.kind);
    EncodeElementsShape(nz, n, |n.elements|);
    var data := EncodeElements(nz, n, |n.elements|).value;
    var name := nz.names[target];
    DistinctKeys(nz);
    TaggedFields(nz, name, data);
    LookupRegistered(nz, target);
    RoundTripElements(nz, n, |n.elements|);
  }

  lemma {:induction false} RoundTripElements(nz: Normalizer, n: Node, i: nat)
    requires ValidNormalizer(nz) && EncodeElements(nz, n, |n.elements|).Success? && i <= |n.elements|
    ensures |EncodeElements(nz, n, |n.elements|).value| == |n.elements|
    ensures DecodeElements(nz, ArrV(EncodeElements(nz, n, |n.elements|).value), i) == Success(ReconstructedChildren(n, i))
    decreases n, i
  {
    EncodeElementsShape(nz, n, |n.elements|);
    if i > 0 {
      RoundTripElements(nz, n, i - 1);
      RoundTripChild(nz, n.elements[i - 1]);
    }
  }

  lemma {:induction false} RoundTripChild(nz: Normalizer, c: Child)
    requires ValidNormalizer(nz) && EncodeChild(nz, c).Success?
    ensures DecodeChild(nz, EncodeChild(nz, c).value) == Success(ReconstructedChild(c))
    decreases c
  {
    match c
    case Leaf(v) =>
    case Cond(d) =>
      RoundTrip(nz, d);
      EncodeElementsShape(nz, d, |d.elements|);
      DistinctKeys(nz);
      TaggedFields(nz, nz.names[ClassOf(d.kind)], EncodeElements(nz, d, |d.elements|).value);
  }

  /** A tree whose every `Limit` is unbounded and counts duplicates, built by the constructors. */
  predicate Preserved(n: Node)
    decreases n
  {
    && (n.kind.LimitKind? ==> n.kind == LimitKind(None, None, false))
    && n.index == LeafKeys(n.elements)
    && n.nested == NestedOf(n.elements)
    && forall i | 0 <= i < |n.elements| :: n.elements[i].Cond? ==> Preserved(n.elements[i].node)
  }

  /** Such trees, and only those, are rebuilt exactly. */
  lemma {:induction false} ReconstructedIdentity(n: Node)
    ensures Reconstructed(n) == n <==> Preserved(n)
    decreases n, |n.elements| + 1
  {
    ReconstructedChildrenPrefix(n, |n.elements|);
    assert n.elements[..|n.elements|] == n.elements;
    if Reconstructed(n) == n {
      forall i | 0 <= i < |n.elements| && n.elements[i].Cond?
        ensures Preserved(n.elements[i].node)
      {
        var d := n.elements[i].node;
        assert ReconstructedChildren(n, |n.elements|)[i] == Cond(Reconstructed(d));
        ReconstructedIdentity(d);
      }
    }
  }

  /** The first `i` rebuilt children are the first `i` children iff each nested one among them is rebuilt exactly. */
  lemma {:induction false} ReconstructedChildrenPrefix(n: Node, i: nat)
    requires i <= |n.elements|
    ensures |ReconstructedChildren(n, i)| == i
    ensures forall k | 0 <= k < i :: ReconstructedChildren(n, i)[k] == ReconstructedChild(n.elements[k])
    ensures ReconstructedChildren(n, i) == n.elements[..i] <==>
      forall k | 0 <= k < i :: n.elements[k].Cond? ==> Preserved(n.elements[k].node)
    decreases n, i
  {
    if i > 0 {
      ReconstructedChildrenPrefix(n, i - 1);
      var c := n.elements[i - 1];
      assert n.elements[..i] == n.elements[..i - 1] + [c];
      if c.Cond? {
        ReconstructedIdentity(c.node);
      }
      if ReconstructedChildren(n, i) == n.elements[..i] {
        assert ReconstructedChildren(n, i - 1) == ReconstructedChildren(n, i)[..i - 1];
      }
    }
  }

  /** What a normalised tree denormalises to behaves exactly as the tree itself when nothing was lost. */
  lemma RoundTripPreserved(nz: Normalizer, n: Node)
    requires ValidNormalizer(nz) && Encodable(nz, n) && Preserved(n)
    ensures Encode(nz, n).Success? && Encode(nz, n).value.ArrV?
    ensures Decode(nz, Encode(nz, n).value) == Success(n)
  {
    EncodeSucceedsIff(nz, n);
    RoundTrip(nz, n);
    ReconstructedIdentity(n);
  }

  /** A normalised `Limit` always comes back without bounds and counting duplicates. */
  lemma LimitLosesBounds(nz: Normalizer, n: Node)
    requires ValidNormalizer(nz) && Encode(nz, n).Success? && n.kind.LimitKind?
    ensures Encode(nz, n).value.ArrV?
    ensures Decode(nz, Encode(nz, n).value).Success?
    ensures Decode(nz, Encode(nz, n).value).value.kind == LimitKind(None, None, false)
  {
    RoundTrip(nz, n);
  }

  // ---------------------------------------------------------------------
  // Which arrays can be denormalised

  /**
   * Both keys are present, the type is a registered name of a condition
   * class, the data is an array, and every child that looks like a
   * condition can be denormalised in turn.
   */
  predicate Decodable(nz: Normalizer, v: Value)
    requires v.ArrV?
    decreases v, 0
  {
    if !HasKey(v.entries, nz.typeKey) || !HasKey(v.entries, nz.dataKey) then false
    else
      var target := TypeClass(nz, Field(v.entries, nz.typeKey));
      var data := Field(v.entries, nz.dataKey);
      && target.Some? && !target.value.Foreign?
      && data.ArrV?
      && forall i | 0 <= i < |data.entries| :: ChildDecodable(nz, data, i)
  }

  predicate ChildDecodable(nz: Normalizer, data: Value, i: nat)
    requires data.ArrV? && i < |data.entries|
    decreases data, 1
  {
    assert data.entries[i] in data.entries;
    LooksLikeNode(nz, data.entries[i].val) ==> Decodable(nz, data.entries[i].val)
  }

  /** An array can be denormalised iff it is `Decodable`. */
  lemma {:induction false} DecodeSucceedsIff(nz: Normalizer, v: Value)
    requires v.ArrV?
    ensures Decode(nz, v).Success? <==> Decodable(nz, v)
    ensures LooksLikeNode(nz, v) && Decode(nz, v).Failure? ==> Decode(nz, v).error != MissingTypeOrData
    decreases v, 0
  {
    var d := v.entries;
    if HasKey(d, nz.typeKey) && HasKey(d, nz.dataKey) {
      var data := Field(d, nz.dataKey);
      var target := TypeClass(nz, Field(d, nz.typeKey));
      if target.Some? && data.ArrV? {
        DecodeElementsSucceedIff(nz, data, |data.entries|);
        assert Decode(nz, v).Success? <==> DecodeElements(nz, data, |data.entries|).Success? && !target.value.Foreign?;
        assert DecodeElements(nz, data, |data.entries|).Success? <==> forall i | 0 <= i < |data.entries| :: ChildDecodable(nz, data, i);
      }
    }
  }

  /**
   * The first `i` children denormalise iff each of them can be
   * denormalised; a failure among them is never about missing keys, since
   * only arrays carrying both keys are denormalised.
   */
  lemma {:induction false} DecodeElementsSucceedIff(nz: Normalizer, data: Value, i: nat)
    requires data.ArrV? && i <= |data.entries|
    ensures DecodeElements(nz, data, i).Success? <==> forall k | 0 <= k < i :: ChildDecodable(nz, data, k)
    ensures DecodeElements(nz, data, i).Failure? ==> DecodeElements(nz, data, i).error != MissingTypeOrData
    decreases data, 1, i
  {
    if i > 0 {
      DecodeElementsSucceedIff(nz, data, i - 1);
      var e := data.entries[i - 1].val;
      assert data.entries[i - 1] in data.entries;
      if LooksLikeNode(nz, e) {
        DecodeSucceedsIff(nz, e);
      }
      assert DecodeChild(nz, e).Success? <==> ChildDecodable(nz, data, i - 1);
      assert (forall k | 0 <= k < i :: ChildDecodable(nz, data, k)) <==>
        (forall k | 0 <= k < i - 1 :: ChildDecodable(nz, data, k)) && ChildDecodable(nz, data, i - 1);
    }
  }

  /**
   * The rejections of `denormalize`, in the order it makes them: missing
   * keys (and only then that error), a type that is an array and so an
   * illegal offset for the registry lookup, an unregistered type, data that is
   * not an array, and, once the children are rebuilt, a registered class
   * that is not a condition.
   */
  lemma DecodeRejections(nz: Normalizer, v: Value)
    requires v.ArrV?
    ensures Decode(nz, v) == Failure(MissingTypeOrData) <==>
      !HasKey(v.entries, nz.typeKey) || !HasKey(v.entries, nz.dataKey)
    ensures HasKey(v.entries, nz.typeKey) && HasKey(v.entries, nz.dataKey) ==>
      var t := Field(v.entries, nz.typeKey);
      var data := Field(v.entries, nz.dataKey);
      && (t.ArrV? ==> Decode(nz, v) == Failure(IllegalTypeOffset(t)))
      && (!t.ArrV? && TypeClass(nz, t).None? ==> Decode(nz, v) == Failure(UnrecognizedType(t)))
      && (TypeClass(nz, t).Some? && !data.ArrV? ==> Decode(nz, v) == Failure(DataNotArray(data)))
      && (TypeClass(nz, t).Some? && TypeClass(nz, t).value.Foreign? && data.ArrV?
          && (forall i | 0 <= i < |data.entries| :: ChildDecodable(nz, data, i))
          ==> Decode(nz, v) == Failure(NotAConditionClass(TypeClass(nz, t).value)))
  {
    var d := v.entries;
    if HasKey(d, nz.typeKey) && HasKey(d, nz.dataKey) {
      var data := Field(d, nz.dataKey);
      if TypeClass(nz, Field(d, nz.typeKey)).Some? && data.ArrV? {
        DecodeElementsSucceedIff(nz, data, |data.entries|);
      }
    }
  }

  // ---------------------------------------------------------------------
  // Denormalised trees can be checked

  /** Every tree `denormalize` returns is one the constructors could have built. */
  lemma {:induction false} DecodedWellFormed(nz: Normalizer, v: Value)
    requires v.ArrV? && Decode(nz, v).Success?
    ensures WellFormed(Decode(nz, v).value)
    decreases v, 0
  {
    var d := v.entries;
    var data := Field(d, nz.dataKey);
    var children := DecodeElements(nz, data, |data.entries|).value;
    DecodedChildrenWellFormed(nz, data, |data.entries|);
    PartitionMembership(children);
    var node := Decode(nz, v).value;
    forall i | 0 <= i < |node.nested| ensures WellFormed(node.nested[i]) {
      assert node.nested[i] in NestedOf(children);
      var k :| 0 <= k < |children| && children[k] == Cond(node.nested[i]);
    }
  }

  lemma {:induction false} DecodedChildrenWellFormed(nz: Normalizer, data: Value, i: nat)
    requires data.ArrV? && i <= |data.entries| && DecodeElements(nz, data, i).Success?
    ensures |DecodeElements(nz, data, i).value| == i
    ensures forall k | 0 <= k < i ::
      DecodeElements(nz, data, i).value[k].Cond? ==> WellFormed(DecodeElements(nz, data, i).value[k].node)
    decreases data, i
  {
    if i > 0 {
      DecodedChildrenWellFormed(nz, data, i - 1);
      var e := data.entries[i - 1].val;
      assert data.entries[i - 1] in data.entries;
      if LooksLikeNode(nz, e) {
        DecodedWellFormed(nz, e);
      }
    }
  }
}
