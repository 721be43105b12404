/**
 * The normaliser: turns a condition tree into nested tagged arrays
 * `[type => name, data => [child, ...]]` and builds a tree back from such
 * arrays.  It is configured by a registry from public names to condition
 * classes and by the two keys of the tagged array.
 */
module Normalizer {
  import opened Values
  import opened Conditions

  /**
   * A class a registration can name.  `Foreign` stands for every class
   * that does not implement the condition interface.
   */
  datatype ClassRef = AllClass | LeastOneClass | LimitClass | Foreign(name: string)

  /** One entry of the registry: a public name and the class it stands for. */
  datatype Registration = Registration(name: string, target: ClassRef)

  /**
   * A configured normaliser: the registry as given, the two keys, and the
   * reverse map from each registered class to its name.
   */
  datatype Normalizer = Normalizer(
    conditions: seq<Registration>,
    typeKey: ArrayKey,
    dataKey: ArrayKey,
    names: map<ClassRef, string>)

  datatype ConstructError =
    | TypeEqualsData
    | NotACondition(target: ClassRef)
    | DuplicateMapping(name: string, previous: string, target: ClassRef)

  /** The registry used when none is given. */
  function DefaultConditions(): seq<Registration> {
    [Registration("all", AllClass), Registration("least_one", LeastOneClass), Registration("limit", LimitClass)]
  }

  const DEFAULT_TYPE := StrKey("type")
  const DEFAULT_DATA := StrKey("data")

  /** The normaliser built with every argument left at its default. */
  function DefaultNormalizer(): Normalizer {
    Normalizer(DefaultConditions(), DEFAULT_TYPE, DEFAULT_DATA,
      map[AllClass := "all", LeastOneClass := "least_one", LimitClass := "limit"])
  }

  // ---------------------------------------------------------------------
  // Construction

  /**
   * The reverse map the constructor builds, one registration at a time:
   * a class that is not a condition, or a class registered a second time,
   * stops construction.
   */
  function ReverseMap(conditions: seq<Registration>): Result<map<ClassRef, string>, ConstructError>
    decreases |conditions|
  {
    if |conditions| == 0 then Success(map[])
    else
      match ReverseMap(conditions[..|conditions| - 1])
      case Failure(e) => Failure(e)
      case Success(m) =>
        var reg := conditions[|conditions| - 1];
        if reg.target.Foreign? then Failure(NotACondition(reg.target))
        else if reg.target in m then Failure(DuplicateMapping(reg.name, m[reg.target], reg.target))
        else Success(m[reg.target := reg.name])
  }

  /** The outcome of the constructor. */
  function MakeNormalizer(conditions: seq<Registration>, typeKey: ArrayKey, dataKey: ArrayKey)
    : Result<Normalizer, ConstructError>
  {
    if KeyString(typeKey) == KeyString(dataKey) then Failure(TypeEqualsData)
    else
      match ReverseMap(conditions)
      case Failure(e) => Failure(e)
      case Success(names) => Success(Normalizer(conditions, typeKey, dataKey, names))
  }

  /** Once a prefix of the registry is rejected, the whole registry is rejected with the same error. */
  lemma {:induction false} ReverseMapFailureStays(conditions: seq<Registration>, i: nat)
    requires i <= |conditions| && ReverseMap(conditions[..i]).Failure?
    ensures ReverseMap(conditions) == ReverseMap(conditions[..i])
    decreases |conditions|
  {
    if i < |conditions| {
      var init := conditions[..|conditions| - 1];
      assert init[..i] == conditions[..i];
      ReverseMapFailureStays(init, i);
    } else {
      assert conditions[..i] == conditions;
    }
  }

  /** The constructor: compare the two keys as strings, then register each class under its name. */
  method NewNormalizer(conditions: seq<Registration>, typeKey: ArrayKey, dataKey: ArrayKey)
    returns (r: Result<Normalizer, ConstructError>)
    ensures r == MakeNormalizer(conditions, typeKey, dataKey)
  {
    if KeyString(typeKey) == KeyString(dataKey) {
      return Failure(TypeEqualsData);
    }
    var names: map<ClassRef, string> := map[];
    for i := 0 to |conditions|
      invariant ReverseMap(conditions[..i]) == Success(names)
    {
      var reg := conditions[i];
      assert conditions[..i + 1][..i] == conditions[..i];
      if reg.target.Foreign? {
        ReverseMapFailureStays(conditions, i + 1);
        return Failure(NotACondition(reg.target));
      }
      if reg.target in names {
        ReverseMapFailureStays(conditions, i + 1);
        return Failure(DuplicateMapping(reg.name, names[reg.target], reg.target));
      }
      names := names[reg.target := reg.name];
    }
    assert conditions[..|conditions|] == conditions;
    r := Success(Normalizer(conditions, typeKey, dataKey, names));
  }

  // ---------------------------------------------------------------------
  // Normalising

  /** The class whose instances have variant `kind`. */
  function ClassOf(kind: Kind): ClassRef {
    match kind
    case AllKind => AllClass
    case LeastOneKind => LeastOneClass
    case LimitKind(_, _, _) => LimitClass
  }

  /** A value made only of ints, strings, bools and arrays of such values. */
  predicate Normalisable(v: Value)
    decreases v
  {
    match v
    case Token(_) => false
    case ArrV(entries) => forall i | 0 <= i < |entries| :: Normalisable(entries[i].val)
    case _ => true
  }

  /** An array carrying both the type key and the data key: what reads back as a condition. */
  predicate LooksLikeNode(nz: Normalizer, v: Value) {
    v.ArrV? && HasKey(v.entries, nz.typeKey) && HasKey(v.entries, nz.dataKey)
  }

  datatype EncodeError =
    | UnregisteredClass(target: ClassRef)
    | LeafLooksLikeNode(leaf: Value)
    | NotNormalisable(leaf: Value)
    | UndefinedMethod(name: string)

  /**
   * The check made on every leaf before it is emitted: a top-level array
   * that would read back as a condition is refused first, then anything
   * that is not made of ints, strings, bools and arrays.
   */
  function Validate(nz: Normalizer, v: Value): (r: Result<Value, EncodeError>)
    ensures r.Success? ==> r.value == v
    ensures r.Success? <==> Normalisable(v) && !LooksLikeNode(nz, v)
    ensures r.Failure? && LooksLikeNode(nz, v) ==> r.error == LeafLooksLikeNode(v)
    ensures r.Failure? && !LooksLikeNode(nz, v) ==> r.error == NotNormalisable(v)
  {
    if LooksLikeNode(nz, v) then Failure(LeafLooksLikeNode(v))
    else if !Normalisable(v) then Failure(NotNormalisable(v))
    else Success(v)
  }

  /** The tagged array emitted for a condition. */
  function Tagged(nz: Normalizer, name: string, data: seq<Entry>): Value {
    ArrV([Entry(nz.typeKey, StrV(name)), Entry(nz.dataKey, ArrV(data))])
  }

  /** `normalize`: the class's registered name, and every child normalised in order. */
  function Encode(nz: Normalizer, n: Node): Result<Value, EncodeError>
    decreases n, |n.elements| + 1
  {
    var target := ClassOf(n.kind);
    if target !in nz.names then Failure(UnregisteredClass(target))
    else
      match EncodeElements(nz, n, |n.elements|)
      case Failure(e) => Failure(e)
      case Success(data) => Success(Tagged(nz, nz.names[target], data))
  }

  /** A nested condition is normalised; any other child is validated and kept. */
  function EncodeChild(nz: Normalizer, c: Child): Result<Value, EncodeError>
    decreases c
  {
    match c
    case Cond(d) => Encode(nz, d)
    case Leaf(v) => Validate(nz, v)
  }

  /** The first `i` children of `n`, normalised under the keys 0 to i-1; the first failure wins. */
  function EncodeElements(nz: Normalizer, n: Node, i: nat): Result<seq<Entry>, EncodeError>
    requires i <= |n.elements|
    decreases n, i
  {
    if i == 0 then Success([])
    else
      match EncodeElements(nz, n, i - 1)
      case Failure(e) => Failure(e)
      case Success(data) =>
        match EncodeChild(nz, n.elements[i - 1])
        case Failure(e) => Failure(e)
        case Success(x) => Success(data + [Entry(IntKey(i - 1), x)])
  }

  lemma {:induction false} EncodeElementsFailureStays(nz: Normalizer, n: Node, i: nat, j: nat)
    requires i <= j <= |n.elements| && EncodeElements(nz, n, i).Failure?
    ensures EncodeElements(nz, n, j) == EncodeElements(nz, n, i)
    decreases j
  {
    if i < j {
      EncodeElementsFailureStays(nz, n, i, j - 1);
    }
  }

  /** `normalize` as a recursive method with one loop over the children. */
  method Normalize(nz: Normalizer, n: Node) returns (r: Result<Value, EncodeError>)
    ensures r == Encode(nz, n)
    decreases n
  {
    var target := ClassOf(n.kind);
    if target !in nz.names {
      return Failure(UnregisteredClass(target));
    }
    var data: seq<Entry> := [];
    for i := 0 to |n.elements|
      invariant EncodeElements(nz, n, i) == Success(data)
    {
      var item: Result<Value, EncodeError>;
      if n.elements[i].Cond? {
        item := Normalize(nz, n.elements[i].node);
      } else {
        item := Validate(nz, n.elements[i].value);
      }
      if item.Failure? {
        EncodeElementsFailureStays(nz, n, i + 1, |n.elements|);
        return Failure(item.error);
      }
      data := data + [Entry(IntKey(i), item.value)];
    }
    r := Success(Tagged(nz, nz.names[target], data));
  }

  /**
   * `normalize` as written: once the class is found registered it asks
   * the condition for `get_elements`, which no condition class defines
   * (the accessor is `getElements`), so the call fails.
   */
  function EncodeAsWritten(nz: Normalizer, n: Node): Result<Value, EncodeError> {
    var target := ClassOf(n.kind);
    if target !in nz.names then Failure(UnregisteredClass(target))
    else Failure(UndefinedMethod("get_elements"))
  }

  // ---------------------------------------------------------------------
  // Denormalising

  /** The class registered under `name`, the first such registration if several. */
  function Lookup(conditions: seq<Registration>, name: string): (r: Option<ClassRef>)
    ensures r.Some? ==> exists i | 0 <= i < |conditions| :: conditions[i] == Registration(name, r.value)
    ensures r.None? <==> forall i | 0 <= i < |conditions| :: conditions[i].name != name
    ensures r.Some? && |conditions| > 0 && conditions[0].name == name ==> r.value == conditions[0].target
  {
    if |conditions| == 0 then None
    else if conditions[0].name == name then Some(conditions[0].target)
    else
      var r := Lookup(conditions[1..], name);
      assert r.Some? ==> conditions[1..][0] == conditions[1];
      assert forall i | 1 <= i < |conditions| :: conditions[i] == conditions[1..][i - 1];
      r
  }

  /** The variant `new $class($elements)` builds: a `Limit` gets the default, unbounded configuration. */
  function KindOf(target: ClassRef): (k: Kind)
    requires !target.Foreign?
    ensures ClassOf(k) == target
    ensures BoundsOk(k)
  {
    match target
    case AllClass => AllKind
    case LeastOneClass => LeastOneKind
    case LimitClass => LimitKind(None, None, false)
  }

  /** The value stored under a key that is present. */
  function Field(entries: seq<Entry>, k: ArrayKey): (v: Value)
    requires HasKey(entries, k)
    ensures v in set e | e in entries :: e.val
  {
    entries[FindKey(entries, k).value].val
  }

  datatype DecodeError =
    | MissingTypeOrData
    | IllegalTypeOffset(t: Value)
    | UnrecognizedType(t: Value)
    | DataNotArray(data: Value)
    | NotAConditionClass(target: ClassRef)

  /** The class a type field names, when it is a registered name. */
  function TypeClass(nz: Normalizer, t: Value): Option<ClassRef> {
    if t.StrV? then Lookup(nz.conditions, t.s) else None
  }

  /**
   * `denormalize`: both keys must be present, the type must be a
   * registered name (an array there is an illegal offset for the registry
   * lookup) and the data an array; each child that looks like a
   * condition is denormalised, every other child is kept as it is.
   */
  function Decode(nz: Normalizer, v: Value): Result<Node, DecodeError>
    requires v.ArrV?
    decreases v, 0
  {
    var d := v.entries;
    if !HasKey(d, nz.typeKey) || !HasKey(d, nz.dataKey) then Failure(MissingTypeOrData)
    else
      var t := Field(d, nz.typeKey);
      var data := Field(d, nz.dataKey);
      var target := TypeClass(nz, t);
      if t.ArrV? then Failure(IllegalTypeOffset(t))
      else if target.None? then Failure(UnrecognizedType(t))
      else if !data.ArrV? then Failure(DataNotArray(data))
      else
        match DecodeElements(nz, data, |data.entries|)
        case Failure(e) => Failure(e)
        case Success(children) =>
          if target.value.Foreign? then Failure(NotAConditionClass(target.value))
          else Success(Build(KindOf(target.value), children))
  }

  /** A child that looks like a condition is denormalised; any other value is a leaf. */
  function DecodeChild(nz: Normalizer, e: Value): Result<Child, DecodeError>
    decreases e, 1
  {
    if LooksLikeNode(nz, e) then
      match Decode(nz, e)
      case Failure(err) => Failure(err)
      case Success(node) => Success(Cond(node))
    else Success(Leaf(e))
  }

  /** The first `i` entries of the data array, denormalised in order; the first failure wins. */
  function DecodeElements(nz: Normalizer, data: Value, i: nat): Result<seq<Child>, DecodeError>
    requires data.ArrV? && i <= |data.entries|
    decreases data, i
  {
    if i == 0 then Success([])
    else
      match DecodeElements(nz, data, i - 1)
      case Failure(e) => Failure(e)
      case Success(children) =>
        assert data.entries[i - 1] in data.entries;
        match DecodeChild(nz, data.entries[i - 1].val)
        case Failure(e) => Failure(e)
        case Success(c) => Success(children + [c])
  }

  lemma {:induction false} DecodeElementsFailureStays(nz: Normalizer, data: Value, i: nat, j: nat)
    requires data.ArrV? && i <= j <= |data.entries| && DecodeElements(nz, data, i).Failure?
    ensures DecodeElements(nz, data, j) == DecodeElements(nz, data, i)
    decreases j
  {
    if i < j {
      DecodeElementsFailureStays(nz, data, i, j - 1);
    }
  }

  /** `denormalize` as a recursive method with one loop over the data array. */
  method Denormalize(nz: Normalizer, v: Value) returns (r: Result<Node, DecodeError>)
    requires v.ArrV?
    ensures r == Decode(nz, v)
    decreases v
  {
    var d := v.entries;
    if !HasKey(d, nz.typeKey) || !HasKey(d, nz.dataKey) {
      return Failure(MissingTypeOrData);
    }
    var t := Field(d, nz.typeKey);
    var data := Field(d, nz.dataKey);
    var target := TypeClass(nz, t);
    if t.ArrV? {
      return Failure(IllegalTypeOffset(t));
    }
    if target.None? {
      return Failure(UnrecognizedType(t));
    }
    if !data.ArrV? {
      return Failure(DataNotArray(data));
    }
    var children: seq<Child> := [];
    for i := 0 to |data.entries|
      invariant DecodeElements(nz, data, i) == Success(children)
    {
      var e := data.entries[i].val;
      assert data.entries[i] in data.entries;
      if LooksLikeNode(nz, e) {
        var sub := Denormalize(nz, e);
        if sub.Failure? {
          DecodeElementsFailureStays(nz, data, i + 1, |data.entries|);
          return Failure(sub.error);
        }
        children := children + [Cond(sub.value)];
      } else {
        children := children + [Leaf(e)];
      }
    }
    if target.value.Foreign? {
      return Failure(NotAConditionClass(target.value));
    }
    r := Success(Build(KindOf(target.value), children));
  }
}
