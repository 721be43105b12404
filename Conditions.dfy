/**
 * Condition trees and their evaluation against a prepared observed list.
 *
 * A node keeps the children it was built from (`elements`) and, split once
 * at construction, the keys of its leaf children (`index`) and its nested
 * conditions (`nested`).  The three variants differ only in how they
 * combine these: `All` needs every child, `LeastOne` some child, and
 * `Limit` a number of satisfied children within optional bounds.
 */
module Conditions {
  import opened Values
  import opened Prepared

  /** The variant of a node, with the parameters of `Limit`. */
  datatype Kind =
    | AllKind
    | LeastOneKind
    | LimitKind(min: Option<int>, max: Option<int>, ignoreDuplicates: bool)

  /** A child of a node: a literal value, or a nested condition. */
  datatype Child = Leaf(value: Value) | Cond(node: Node)

  datatype Node = Node(kind: Kind, elements: seq<Child>, index: seq<Key>, nested: seq<Node>)

  // ---------------------------------------------------------------------
  // Construction

  /** The keys of the leaf children, in order, duplicates kept. */
  function LeafKeys(elements: seq<Child>): seq<Key>
    decreases |elements|
  {
    if |elements| == 0 then []
    else
      var last := elements[|elements| - 1];
      LeafKeys(elements[..|elements| - 1]) + (if last.Leaf? then [HashmapKey(last.value)] else [])
  }

  /** The nested-condition children, in order, duplicates kept. */
  function NestedOf(elements: seq<Child>): seq<Node>
    decreases |elements|
  {
    if |elements| == 0 then []
    else
      var last := elements[|elements| - 1];
      NestedOf(elements[..|elements| - 1]) + (if last.Cond? then [last.node] else [])
  }

  /** The node the constructor of variant `kind` builds from `elements`. */
  function Build(kind: Kind, elements: seq<Child>): Node {
    Node(kind, elements, LeafKeys(elements), NestedOf(elements))
  }

  /** The bounds a `Limit` keeps after its constructor has accepted them. */
  predicate BoundsOk(kind: Kind) {
    kind.LimitKind? ==>
      && (kind.min.Some? ==> kind.min.value >= 1)
      && (kind.max.Some? ==> kind.max.value >= 1)
      && (kind.min.Some? && kind.max.Some? ==> kind.min.value <= kind.max.value)
  }

  /** A node every constructor could have built: split correctly, bounds accepted, at every depth. */
  predicate WellFormed(n: Node)
    decreases n
  {
    && n.index == LeafKeys(n.elements)
    && n.nested == NestedOf(n.elements)
    && BoundsOk(n.kind)
    && forall i | 0 <= i < |n.nested| :: WellFormed(n.nested[i])
  }

  /**
   * The shared constructor: one pass over the children, sending each
   * nested condition to `nested` and the key of each other value to `index`.
   */
  method NewBase(kind: Kind, elements: seq<Child>) returns (n: Node)
    ensures n.kind == kind && n.elements == elements
    ensures n.index == LeafKeys(elements) && n.nested == NestedOf(elements)
    ensures BoundsOk(kind) && (forall c | c in NestedOf(elements) :: WellFormed(c)) ==> WellFormed(n)
  {
    var index: seq<Key> := [];
    var nested: seq<Node> := [];
    for k := 0 to |elements|
      invariant index == LeafKeys(elements[..k])
      invariant nested == NestedOf(elements[..k])
    {
      assert elements[..k + 1][..k] == elements[..k];
      match elements[k]
      case Cond(c) =>
        nested := nested + [c];
      case Leaf(v) =>
        index := index + [HashmapKey(v)];
    }
    assert elements[..|elements|] == elements;
    n := Node(kind, elements, index, nested);
  }

  datatype ConfigError = MinBelowZero | MaxBelowOne | MinAboveMax

  /** Whether a count lies within optional inclusive bounds. */
  predicate InBounds(min: Option<int>, max: Option<int>, total: int) {
    (max.None? || total <= max.value) && (min.None? || total >= min.value)
  }

  /**
   * The bound checks of the `Limit` constructor, in the order it makes
   * them.  A lower bound of zero is stored as no lower bound.
   */
  function LimitConfig(min: Option<int>, max: Option<int>, ignoreDuplicates: bool): (r: Result<Kind, ConfigError>)
    ensures r.Failure? <==>
      || (min.Some? && min.value < 0)
      || (max.Some? && max.value < 1)
      || (min.Some? && max.Some? && min.value > max.value)
    ensures min.Some? && min.value < 0 ==> r == Failure(MinBelowZero)
    ensures (min.None? || min.value >= 0) && max.Some? && max.value < 1 ==> r == Failure(MaxBelowOne)
    ensures r == Failure(MaxBelowOne) ==> max.Some? && max.value < 1
    ensures ((min.None? || min.value >= 0) && (max.None? || max.value >= 1)
             && min.Some? && max.Some? && min.value > max.value) ==> r == Failure(MinAboveMax)
    ensures r == Failure(MinAboveMax) ==> min.Some? && max.Some? && min.value > max.value
    ensures r.Success? ==> r.value.LimitKind? && BoundsOk(r.value)
    ensures r.Success? ==> r.value.max == max && r.value.ignoreDuplicates == ignoreDuplicates
    ensures r.Success? ==> r.value.min != Some(0)
    ensures r.Success? ==> forall t: nat :: InBounds(r.value.min, r.value.max, t) == InBounds(min, max, t)
  {
    if min.Some? && min.value < 0 then Failure(MinBelowZero)
    else if max.Some? && max.value < 1 then Failure(MaxBelowOne)
    else if min.Some? && max.Some? && min.value > max.value then Failure(MinAboveMax)
    else Success(LimitKind(if min == Some(0) then None else min, max, ignoreDuplicates))
  }

  /** The constructor of `Limit`: split the children, then validate the bounds. */
  method NewLimit(elements: seq<Child>, min: Option<int>, max: Option<int>, ignoreDuplicates: bool)
    returns (r: Result<Node, ConfigError>)
    ensures r.Failure? <==> LimitConfig(min, max, ignoreDuplicates).Failure?
    ensures r.Failure? ==> r.error == LimitConfig(min, max, ignoreDuplicates).error
    ensures r.Success? ==> r.value == Build(LimitConfig(min, max, ignoreDuplicates).value, elements)
    ensures r.Success? && (forall c | c in NestedOf(elements) :: WellFormed(c)) ==> WellFormed(r.value)
  {
    var config := LimitConfig(min, max, ignoreDuplicates);
    if config.Failure? {
      return Failure(config.error);
    }
    var n := NewBase(config.value, elements);
    r := Success(n);
  }

  // ---------------------------------------------------------------------
  // Evaluation

  /** What one leaf entry adds to a `Limit` count. */
  function Contribution(k: Key, m: Hashmap, ignoreDuplicates: bool): nat {
    if k in m then (if ignoreDuplicates then 1 else m[k]) else 0
  }

  /** What the leaf entries add to a `Limit` count, duplicates in `index` included. */
  function LeafTotal(index: seq<Key>, m: Hashmap, ignoreDuplicates: bool): nat
    decreases |index|
  {
    if |index| == 0 then 0
    else LeafTotal(index[..|index| - 1], m, ignoreDuplicates) + Contribution(index[|index| - 1], m, ignoreDuplicates)
  }

  /** How many of the first `i` nested conditions of `n` hold. */
  function Satisfied(n: Node, m: Hashmap, i: nat): nat
    requires i <= |n.nested|
    decreases n, i
  {
    if i == 0 then 0
    else Satisfied(n, m, i - 1) + (if Holds(n.nested[i - 1], m) then 1 else 0)
  }

  /** The count a `Limit` node compares with its bounds. */
  function LimitTotal(n: Node, m: Hashmap): nat
    requires n.kind.LimitKind?
    decreases n, |n.nested| + 1
  {
    LeafTotal(n.index, m, n.kind.ignoreDuplicates) + Satisfied(n, m, |n.nested|)
  }

  /**
   * The meaning of `checkPrepared`.  `All`: every leaf key is present and
   * every nested condition holds.  `LeastOne`: some leaf key is present or
   * some nested condition holds.  `Limit`: the count lies within the bounds.
   */
  predicate Holds(n: Node, m: Hashmap)
    decreases n, |n.nested| + 2
  {
    match n.kind
    case AllKind =>
      && (forall k | k in n.index :: k in m)
      && (forall i | 0 <= i < |n.nested| :: Holds(n.nested[i], m))
    case LeastOneKind =>
      || (exists k | k in n.index :: k in m)
      || (exists i | 0 <= i < |n.nested| :: Holds(n.nested[i], m))
    case LimitKind(min, max, _) =>
      InBounds(min, max, LimitTotal(n, m))
  }

  lemma {:induction false} LeafTotalPrefix(index: seq<Key>, m: Hashmap, ignoreDuplicates: bool, i: nat)
    requires i <= |index|
    ensures LeafTotal(index[..i], m, ignoreDuplicates) <= LeafTotal(index, m, ignoreDuplicates)
    decreases |index|
  {
    if i < |index| {
      var init := index[..|index| - 1];
      assert index[..i] == init[..i];
      LeafTotalPrefix(init, m, ignoreDuplicates, i);
    } else {
      assert index[..i] == index;
    }
  }

  lemma {:induction false} SatisfiedPrefix(n: Node, m: Hashmap, i: nat)
    requires i <= |n.nested|
    ensures Satisfied(n, m, i) <= Satisfied(n, m, |n.nested|)
    decreases |n.nested| - i
  {
    if i < |n.nested| {
      SatisfiedPrefix(n, m, i + 1);
    }
  }

  /** The virtual `checkPrepared`: each variant's own evaluation. */
  method CheckPrepared(n: Node, m: Hashmap) returns (b: bool)
    requires WellFormed(n)
    ensures b == Holds(n, m)
    decreases n, 1
  {
    match n.kind
    case AllKind =>
      b := AllCheckPrepared(n, m);
    case LeastOneKind =>
      b := LeastOneCheckPrepared(n, m);
    case LimitKind(_, _, _) =>
      b := LimitCheckPrepared(n, m);
  }

  /** `All`'s evaluation: the first missing leaf key or failing nested condition decides. */
  method AllCheckPrepared(n: Node, m: Hashmap) returns (b: bool)
    requires n.kind == AllKind
    requires forall j | 0 <= j < |n.nested| :: WellFormed(n.nested[j])
    ensures b == Holds(n, m)
    decreases n, 0
  {
    for i := 0 to |n.index|
      invariant forall k | k in n.index[..i] :: k in m
    {
      assert n.index[..i + 1] == n.index[..i] + [n.index[i]];
      if n.index[i] !in m {
        return false;
      }
    }
    assert n.index[..|n.index|] == n.index;
    for j := 0 to |n.nested|
      invariant forall j' | 0 <= j' < j :: Holds(n.nested[j'], m)
    {
      var holds := CheckPrepared(n.nested[j], m);
      if !holds {
        return false;
      }
    }
    return true;
  }

  /** `LeastOne`'s evaluation: the first present leaf key or holding nested condition decides. */
  method LeastOneCheckPrepared(n: Node, m: Hashmap) returns (b: bool)
    requires n.kind == LeastOneKind
    requires forall j | 0 <= j < |n.nested| :: WellFormed(n.nested[j])
    ensures b == Holds(n, m)
    decreases n, 0
  {
    for i := 0 to |n.index|
      invariant forall k | k in n.index[..i] :: k !in m
    {
      assert n.index[..i + 1] == n.index[..i] + [n.index[i]];
      if n.index[i] in m {
        return true;
      }
    }
    assert n.index[..|n.index|] == n.index;
    for j := 0 to |n.nested|
      invariant forall j' | 0 <= j' < j :: !Holds(n.nested[j'], m)
    {
      var holds := CheckPrepared(n.nested[j], m);
      if holds {
        return true;
      }
    }
    return false;
  }

  /**
   * `Limit`'s evaluation: a running count over the leaf keys, then over the
   * nested conditions, stopping as soon as the count exceeds the upper
   * bound, or, when there is none, as soon as it reaches the lower bound.
   */
  method LimitCheckPrepared(n: Node, m: Hashmap) returns (b: bool)
    requires n.kind.LimitKind? && BoundsOk(n.kind)
    requires forall j | 0 <= j < |n.nested| :: WellFormed(n.nested[j])
    ensures b == InBounds(n.kind.min, n.kind.max, LimitTotal(n, m))
    decreases n, 0
  {
    var min, max, ignoreDuplicates := n.kind.min, n.kind.max, n.kind.ignoreDuplicates;
    if max.None? && min.None? {
      return true;
    }
    var exist := 0;
    for i := 0 to |n.index|
      invariant exist == LeafTotal(n.index[..i], m, ignoreDuplicates)
      invariant max.Some? ==> exist <= max.value
      invariant max.None? ==> exist < min.value
    {
      var hash := n.index[i];
      assert n.index[..i + 1][..i] == n.index[..i];
      if hash in m {
        exist := exist + (if ignoreDuplicates then 1 else m[hash]);
        if max.Some? && exist > max.value {
          LeafTotalPrefix(n.index, m, ignoreDuplicates, i + 1);
          return false;
        }
        if max.None? && exist >= min.value {
          LeafTotalPrefix(n.index, m, ignoreDuplicates, i + 1);
          return true;
        }
      }
    }
    assert n.index[..|n.index|] == n.index;
    for j := 0 to |n.nested|
      invariant exist == LeafTotal(n.index, m, ignoreDuplicates) + Satisfied(n, m, j)
      invariant max.Some? ==> exist <= max.value
      invariant max.None? ==> exist < min.value
    {
      var holds := CheckPrepared(n.nested[j], m);
      if holds {
        exist := exist + 1;
        if max.Some? && exist > max.value {
          SatisfiedPrefix(n, m, j + 1);
          return false;
        }
        if max.None? && exist >= min.value {
          SatisfiedPrefix(n, m, j + 1);
          return true;
        }
      }
    }
    if min.Some? && exist < min.value {
      return false;
    }
    return true;
  }

  /** What `check` accepts: a raw observed list, or one already prepared. */
  datatype Observed = List(list: seq<Value>) | Ready(prepared: PreparedElements)

  /** The hashmap `check` evaluates against. */
  function HashmapOf(input: Observed): Hashmap {
    match input
    case List(s) => Counts(s)
    case Ready(p) => p.hashmap
  }

  /** The entry point: prepare a raw list once, reuse a prepared one as it is. */
  method Check(n: Node, input: Observed) returns (b: bool)
    requires WellFormed(n)
    ensures b == Holds(n, HashmapOf(input))
    ensures input.List? ==> b == Holds(n, Counts(input.list))
  {
    var prepared: PreparedElements;
    if input.Ready? {
      prepared := input.prepared;
    } else {
      prepared := new PreparedElements(input.list);
    }
    b := CheckPrepared(n, prepared.hashmap);
  }

  // ---------------------------------------------------------------------
  // Introspection

  /** `v` is a leaf of `n` at some depth. */
  predicate Reaches(n: Node, v: Value)
    decreases n
  {
    exists i | 0 <= i < |n.elements| :: Occurs(n.elements[i], v)
  }

  /** `v` is the leaf `c`, or a leaf of the condition `c` at some depth. */
  predicate Occurs(c: Child, v: Value)
    decreases c
  {
    match c
    case Leaf(w) => w == v
    case Cond(d) => Reaches(d, v)
  }

  /** PHP's `array_unique`: the first occurrence of each value, in order. */
  function Unique(s: seq<Value>): (r: seq<Value>)
    ensures NoDuplicates(r)
    ensures forall v :: v in r <==> v in s
    decreases |s|
  {
    if |s| == 0 then []
    else
      var r := Unique(s[..|s| - 1]);
      var last := s[|s| - 1];
      assert forall v :: v in s <==> v in s[..|s| - 1] || v == last by {
        assert s == s[..|s| - 1] + [last];
      }
      if last in r then r else r + [last]
  }

  /**
   * `getAllOptionsRecursive`: the leaf children in order, the options of
   * each nested condition in its place, duplicates removed.
   */
  method AllOptionsRecursive(n: Node) returns (options: seq<Value>)
    ensures NoDuplicates(options)
    ensures forall v :: v in options <==> Reaches(n, v)
    decreases n
  {
    var res: seq<Value> := [];
    for i := 0 to |n.elements|
      invariant forall v :: v in res <==> exists j | 0 <= j < i :: Occurs(n.elements[j], v)
    {
      match n.elements[i]
      case Cond(c) =>
        var sub := AllOptionsRecursive(c);
        res := res + sub;
      case Leaf(v) =>
        res := res + [v];
    }
    options := Unique(res);
  }
}
