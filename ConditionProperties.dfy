/**
 * What the condition engine promises, stated over the children a node was
 * built from and over the observed list, and proved from the definitions
 * in `Conditions`.
 */
module ConditionProperties {
  import opened Values
  import opened Prepared
  import opened Conditions

  // ---------------------------------------------------------------------
  // The split made at construction

  /** Every child goes to exactly one side, each side keeping its duplicates. */
  lemma {:induction false} PartitionExact(elements: seq<Child>)
    ensures |LeafKeys(elements)| + |NestedOf(elements)| == |elements|
    ensures forall v :: multiset(LeafKeys(elements))[v] == multiset(elements)[Leaf(v)]
    ensures forall c :: multiset(NestedOf(elements))[c] == multiset(elements)[Cond(c)]
    decreases |elements|
  {
    if |elements| > 0 {
      var init := elements[..|elements| - 1];
      var last := elements[|elements| - 1];
      assert elements == init + [last];
      PartitionExact(init);
    }
  }

  /** A key is in `index` iff a leaf with that value is a child; likewise for `nested`. */
  lemma PartitionMembership(elements: seq<Child>)
    ensures forall v :: v in LeafKeys(elements) <==> Leaf(v) in elements
    ensures forall c :: c in NestedOf(elements) <==> Cond(c) in elements
  {
    PartitionExact(elements);
    forall v ensures v in LeafKeys(elements) <==> Leaf(v) in elements {
      assert v in LeafKeys(elements) <==> v in multiset(LeafKeys(elements));
      assert Leaf(v) in elements <==> Leaf(v) in multiset(elements);
    }
    forall c ensures c in NestedOf(elements) <==> Cond(c) in elements {
      assert c in NestedOf(elements) <==> c in multiset(NestedOf(elements));
      assert Cond(c) in elements <==> Cond(c) in multiset(elements);
    }
  }

  /** The split keeps the order of the children: it distributes over concatenation. */
  lemma {:induction false} PartitionKeepsOrder(a: seq<Child>, b: seq<Child>)
    ensures LeafKeys(a + b) == LeafKeys(a) + LeafKeys(b)
    ensures NestedOf(a + b) == NestedOf(a) + NestedOf(b)
    decreases |b|
  {
    if |b| == 0 {
      assert a + b == a;
    } else {
      var init := b[..|b| - 1];
      assert (a + b)[..|a + b| - 1] == a + init;
      assert (a + b)[|a + b| - 1] == b[|b| - 1];
      PartitionKeepsOrder(a, init);
    }
  }

  // ---------------------------------------------------------------------
  // The variants, over the children

  /** Whether one child is satisfied: a leaf by its presence, a condition by holding. */
  predicate ChildHolds(c: Child, m: Hashmap) {
    match c
    case Leaf(v) => HashmapKey(v) in m
    case Cond(d) => Holds(d, m)
  }

  /** `All` holds iff every child is satisfied. */
  lemma AllMeansEveryChild(n: Node, m: Hashmap)
    requires WellFormed(n) && n.kind == AllKind
    ensures Holds(n, m) <==> forall i | 0 <= i < |n.elements| :: ChildHolds(n.elements[i], m)
  {
    PartitionMembership(n.elements);
    if Holds(n, m) {
      forall i | 0 <= i < |n.elements| ensures ChildHolds(n.elements[i], m) {
        match n.elements[i]
        case Leaf(v) =>
          assert v in n.index;
        case Cond(d) =>
          assert d in n.nested;
      }
    } else if forall i | 0 <= i < |n.elements| :: ChildHolds(n.elements[i], m) {
      forall k | k in n.index ensures k in m {
        var i :| 0 <= i < |n.elements| && n.elements[i] == Leaf(k);
        assert ChildHolds(n.elements[i], m);
      }
      forall j | 0 <= j < |n.nested| ensures Holds(n.nested[j], m) {
        assert n.nested[j] in n.nested;
        var i :| 0 <= i < |n.elements| && n.elements[i] == Cond(n.nested[j]);
        assert ChildHolds(n.elements[i], m);
      }
    }
  }

  /** `LeastOne` holds iff some child is satisfied. */
  lemma LeastOneMeansSomeChild(n: Node, m: Hashmap)
    requires WellFormed(n) && n.kind == LeastOneKind
    ensures Holds(n, m) <==> exists i | 0 <= i < |n.elements| :: ChildHolds(n.elements[i], m)
  {
    PartitionMembership(n.elements);
    if exists i | 0 <= i < |n.elements| :: ChildHolds(n.elements[i], m) {
      var i :| 0 <= i < |n.elements| && ChildHolds(n.elements[i], m);
      match n.elements[i]
      case Leaf(v) =>
        assert v in n.index;
      case Cond(d) =>
        assert d in n.nested;
        var j :| 0 <= j < |n.nested| && n.nested[j] == d;
        assert Holds(n.nested[j], m);
    }
    if Holds(n, m) {
      if exists k | k in n.index :: k in m {
        var k :| k in n.index && k in m;
        var i :| 0 <= i < |n.elements| && n.elements[i] == Leaf(k);
        assert ChildHolds(n.elements[i], m);
      } else {
        var j :| 0 <= j < |n.nested| && Holds(n.nested[j], m);
        assert n.nested[j] in n.nested;
        var i :| 0 <= i < |n.elements| && n.elements[i] == Cond(n.nested[j]);
        assert ChildHolds(n.elements[i], m);
      }
    }
  }

  lemma EmptyAllHolds(m: Hashmap)
    ensures Holds(Build(AllKind, []), m)
  {
  }

  lemma EmptyLeastOneFails(m: Hashmap)
    ensures !Holds(Build(LeastOneKind, []), m)
  {
  }

  /** A `Limit` with neither bound holds whatever is observed. */
  lemma UnboundedLimitHolds(elements: seq<Child>, ignoreDuplicates: bool, m: Hashmap)
    ensures Holds(Build(LimitKind(None, None, ignoreDuplicates), elements), m)
  {
  }

  // ---------------------------------------------------------------------
  // The count of `Limit`, over the children

  /** What one child adds to a `Limit` count: a nested condition adds 1 when it holds, never more. */
  function Weight(c: Child, m: Hashmap, ignoreDuplicates: bool): nat {
    match c
    case Leaf(v) => Contribution(HashmapKey(v), m, ignoreDuplicates)
    case Cond(d) => if Holds(d, m) then 1 else 0
  }

  function ChildrenTotal(elements: seq<Child>, m: Hashmap, ignoreDuplicates: bool): nat
    decreases |elements|
  {
    if |elements| == 0 then 0
    else ChildrenTotal(elements[..|elements| - 1], m, ignoreDuplicates) + Weight(elements[|elements| - 1], m, ignoreDuplicates)
  }

  function CountHolding(ns: seq<Node>, m: Hashmap): nat
    decreases |ns|
  {
    if |ns| == 0 then 0
    else CountHolding(ns[..|ns| - 1], m) + (if Holds(ns[|ns| - 1], m) then 1 else 0)
  }

  lemma {:induction false} SatisfiedIsCount(n: Node, m: Hashmap, i: nat)
    requires i <= |n.nested|
    ensures Satisfied(n, m, i) == CountHolding(n.nested[..i], m)
    decreases i
  {
    if i > 0 {
      SatisfiedIsCount(n, m, i - 1);
      assert n.nested[..i][..i - 1] == n.nested[..i - 1];
    }
  }

  lemma LeafTotalAppend(index: seq<Key>, k: Key, m: Hashmap, ignoreDuplicates: bool)
    ensures LeafTotal(index + [k], m, ignoreDuplicates) == LeafTotal(index, m, ignoreDuplicates) + Contribution(k, m, ignoreDuplicates)
  {
    assert (index + [k])[..|index|] == index;
  }

  lemma CountHoldingAppend(ns: seq<Node>, d: Node, m: Hashmap)
    ensures CountHolding(ns + [d], m) == CountHolding(ns, m) + (if Holds(d, m) then 1 else 0)
  {
    assert (ns + [d])[..|ns|] == ns;
  }

  lemma {:induction false} SplitTotal(elements: seq<Child>, m: Hashmap, ignoreDuplicates: bool)
    ensures LeafTotal(LeafKeys(elements), m, ignoreDuplicates) + CountHolding(NestedOf(elements), m)
         == ChildrenTotal(elements, m, ignoreDuplicates)
    decreases |elements|
  {
    if |elements| > 0 {
      var init := elements[..|elements| - 1];
      var last := elements[|elements| - 1];
      SplitTotal(init, m, ignoreDuplicates);
      match last
      case Leaf(v) =>
        LeafTotalAppend(LeafKeys(init), HashmapKey(v), m, ignoreDuplicates);
        assert NestedOf(elements) == NestedOf(init);
      case Cond(d) =>
        CountHoldingAppend(NestedOf(init), d, m);
        assert LeafKeys(elements) == LeafKeys(init);
    }
  }

  /**
   * The count of a `Limit` is the sum over its children: a present leaf adds
   * its occurrence count (1 when duplicates are ignored), a satisfied nested
   * condition adds 1.  Children are counted in any order and with repeats.
   */
  lemma LimitTotalOverChildren(n: Node, m: Hashmap)
    requires WellFormed(n) && n.kind.LimitKind?
    ensures LimitTotal(n, m) == ChildrenTotal(n.elements, m, n.kind.ignoreDuplicates)
  {
    SatisfiedIsCount(n, m, |n.nested|);
    assert n.nested[..|n.nested|] == n.nested;
    SplitTotal(n.elements, m, n.kind.ignoreDuplicates);
  }

  /** Ignoring duplicates never makes the leaf count larger. */
  lemma {:induction false} IgnoringDuplicatesCountsLess(index: seq<Key>, m: Hashmap)
    requires forall k | k in m :: m[k] >= 1
    ensures LeafTotal(index, m, true) <= LeafTotal(index, m, false)
    decreases |index|
  {
    if |index| > 0 {
      IgnoringDuplicatesCountsLess(index[..|index| - 1], m);
    }
  }

  // ---------------------------------------------------------------------
  // Presence, monotonicity and order

  /** No `Limit` anywhere in the tree. */
  predicate LimitFree(n: Node)
    decreases n
  {
    !n.kind.LimitKind? && forall i | 0 <= i < |n.nested| :: LimitFree(n.nested[i])
  }

  /** Every `Limit` in the tree ignores duplicates. */
  predicate CountInsensitive(n: Node)
    decreases n
  {
    (n.kind.LimitKind? ==> n.kind.ignoreDuplicates) && forall i | 0 <= i < |n.nested| :: CountInsensitive(n.nested[i])
  }

  lemma {:induction false} LeafTotalPresenceOnly(index: seq<Key>, m1: Hashmap, m2: Hashmap)
    requires m1.Keys == m2.Keys
    ensures LeafTotal(index, m1, true) == LeafTotal(index, m2, true)
    decreases |index|
  {
    if |index| > 0 {
      LeafTotalPresenceOnly(index[..|index| - 1], m1, m2);
      var k := index[|index| - 1];
      assert k in m1 <==> k in m2 by {
        assert k in m1 <==> k in m1.Keys;
        assert k in m2 <==> k in m2.Keys;
      }
    }
  }

  lemma {:induction false} SatisfiedAgree(n: Node, m1: Hashmap, m2: Hashmap, i: nat)
    requires i <= |n.nested|
    requires forall j | 0 <= j < |n.nested| :: Holds(n.nested[j], m1) == Holds(n.nested[j], m2)
    ensures Satisfied(n, m1, i) == Satisfied(n, m2, i)
    decreases i
  {
    if i > 0 {
      SatisfiedAgree(n, m1, m2, i - 1);
    }
  }

  /**
   * Only presence matters: when no `Limit` in the tree counts duplicates,
   * two hashmaps with the same keys give the same result, whatever counts
   * they store.
   */
  lemma {:induction false} PresenceOnly(n: Node, m1: Hashmap, m2: Hashmap)
    requires CountInsensitive(n) && m1.Keys == m2.Keys
    ensures Holds(n, m1) == Holds(n, m2)
    decreases n
  {
    forall j | 0 <= j < |n.nested| ensures Holds(n.nested[j], m1) == Holds(n.nested[j], m2) {
      PresenceOnly(n.nested[j], m1, m2);
    }
    assert forall k :: k in m1 <==> k in m2 by {
      forall k ensures k in m1 <==> k in m2 {
        assert k in m1 <==> k in m1.Keys;
        assert k in m2 <==> k in m2.Keys;
      }
    }
    if n.kind.LimitKind? {
      LeafTotalPresenceOnly(n.index, m1, m2);
      SatisfiedAgree(n, m1, m2, |n.nested|);
    }
  }

  /** Without `Limit`, more keys present never turn a result from true to false. */
  lemma {:induction false} MorePresentNeverHurts(n: Node, m1: Hashmap, m2: Hashmap)
    requires LimitFree(n) && m1.Keys <= m2.Keys
    requires Holds(n, m1)
    ensures Holds(n, m2)
    decreases n
  {
    assert forall k :: k in m1 ==> k in m2 by {
      forall k | k in m1 ensures k in m2 {
        assert k in m1.Keys;
      }
    }
    if n.kind == AllKind {
      forall j | 0 <= j < |n.nested| ensures Holds(n.nested[j], m2) {
        MorePresentNeverHurts(n.nested[j], m1, m2);
      }
    } else if !exists k | k in n.index :: k in m1 {
      var j :| 0 <= j < |n.nested| && Holds(n.nested[j], m1);
      MorePresentNeverHurts(n.nested[j], m1, m2);
    }
  }

  /** Reordering the observed list never changes the result. */
  lemma OrderIndependent(n: Node, observed: seq<Value>, reordered: seq<Value>)
    requires multiset(observed) == multiset(reordered)
    ensures Holds(n, Counts(observed)) == Holds(n, Counts(reordered))
  {
    CountsOrderIndependent(observed, reordered);
  }

  /** Without `Limit`, observing more elements never turns true into false. */
  lemma ExtraElementsNeverHurt(n: Node, observed: seq<Value>, extra: seq<Value>)
    requires LimitFree(n) && Holds(n, Counts(observed))
    ensures Holds(n, Counts(observed + extra))
  {
    CountsAreOccurrences(observed);
    CountsAreOccurrences(observed + extra);
    assert Counts(observed).Keys <= Counts(observed + extra).Keys by {
      forall k | k in Counts(observed).Keys ensures k in Counts(observed + extra).Keys {
        assert k in observed;
        assert k in observed + extra;
      }
    }
    MorePresentNeverHurts(n, Counts(observed), Counts(observed + extra));
  }

  // ---------------------------------------------------------------------
  // The count of `Limit` grows with what is observed

  /** A hashmap that has every key of `m1`, each at least as often. */
  predicate Dominates(m1: Hashmap, m2: Hashmap) {
    forall k | k in m1 :: k in m2 && m1[k] <= m2[k]
  }

  /** More occurrences never lower what the leaf entries add to a `Limit` count. */
  lemma {:induction false} LeafTotalMonotone(index: seq<Key>, m1: Hashmap, m2: Hashmap, ignoreDuplicates: bool)
    requires Dominates(m1, m2)
    ensures LeafTotal(index, m1, ignoreDuplicates) <= LeafTotal(index, m2, ignoreDuplicates)
    decreases |index|
  {
    if |index| > 0 {
      LeafTotalMonotone(index[..|index| - 1], m1, m2, ignoreDuplicates);
    }
  }

  /** More keys present never lower the number of `Limit`-free nested conditions that hold. */
  lemma {:induction false} SatisfiedMonotone(n: Node, m1: Hashmap, m2: Hashmap, i: nat)
    requires i <= |n.nested| && Dominates(m1, m2)
    requires forall j | 0 <= j < |n.nested| :: LimitFree(n.nested[j])
    ensures Satisfied(n, m1, i) <= Satisfied(n, m2, i)
    decreases i
  {
    if i > 0 {
      SatisfiedMonotone(n, m1, m2, i - 1);
      if Holds(n.nested[i - 1], m1) {
        assert m1.Keys <= m2.Keys;
        MorePresentNeverHurts(n.nested[i - 1], m1, m2);
      }
    }
  }

  /** Observing more elements never lowers any count. */
  lemma CountsGrow(observed: seq<Value>, extra: seq<Value>)
    ensures Dominates(Counts(observed), Counts(observed + extra))
  {
    CountsAreOccurrences(observed);
    CountsAreOccurrences(observed + extra);
    assert multiset(observed + extra) == multiset(observed) + multiset(extra);
    forall k | k in Counts(observed) ensures k in Counts(observed + extra) {
      assert k in observed + extra;
    }
  }

  /**
   * Observing more elements never lowers the count of a `Limit` whose
   * nested conditions are `Limit`-free.
   */
  lemma LimitCountGrows(n: Node, observed: seq<Value>, extra: seq<Value>)
    requires n.kind.LimitKind? && forall j | 0 <= j < |n.nested| :: LimitFree(n.nested[j])
    ensures LimitTotal(n, Counts(observed)) <= LimitTotal(n, Counts(observed + extra))
  {
    CountsGrow(observed, extra);
    LeafTotalMonotone(n.index, Counts(observed), Counts(observed + extra), n.kind.ignoreDuplicates);
    SatisfiedMonotone(n, Counts(observed), Counts(observed + extra), |n.nested|);
  }

  /** A count over `max` stays over it, whatever else is observed. */
  lemma OverMaxStaysFailing(n: Node, observed: seq<Value>, extra: seq<Value>)
    requires n.kind.LimitKind? && forall j | 0 <= j < |n.nested| :: LimitFree(n.nested[j])
    requires n.kind.max.Some? && LimitTotal(n, Counts(observed)) > n.kind.max.value
    ensures !Holds(n, Counts(observed)) && !Holds(n, Counts(observed + extra))
  {
    LimitCountGrows(n, observed, extra);
  }

  /** Without `max`, a `Limit` that holds keeps holding, whatever else is observed. */
  lemma NoMaxStaysHolding(n: Node, observed: seq<Value>, extra: seq<Value>)
    requires n.kind.LimitKind? && forall j | 0 <= j < |n.nested| :: LimitFree(n.nested[j])
    requires n.kind.max.None? && Holds(n, Counts(observed))
    ensures Holds(n, Counts(observed + extra))
  {
    LimitCountGrows(n, observed, extra);
  }

  /** When no `Limit` counts duplicates, observing an element again never changes the result. */
  lemma RepeatsNeverMatter(n: Node, observed: seq<Value>, x: Value)
    requires CountInsensitive(n) && x in observed
    ensures Holds(n, Counts(observed + [x])) == Holds(n, Counts(observed))
  {
    CountsAreOccurrences(observed);
    CountsAreOccurrences(observed + [x]);
    assert Counts(observed + [x]).Keys == Counts(observed).Keys by {
      forall k ensures k in Counts(observed + [x]).Keys <==> k in Counts(observed).Keys {
        assert k in observed + [x] <==> k in observed;
      }
    }
    PresenceOnly(n, Counts(observed + [x]), Counts(observed));
  }

  // ---------------------------------------------------------------------
  // Leaf-only conditions against the observed list

  predicate LeafOnly(n: Node) {
    forall i | 0 <= i < |n.elements| :: n.elements[i].Leaf?
  }

  /** A leaf-only `All` holds iff every one of its values is observed. */
  lemma LeafOnlyAll(n: Node, observed: seq<Value>)
    requires WellFormed(n) && n.kind == AllKind && LeafOnly(n)
    ensures Holds(n, Counts(observed)) <==> forall i | 0 <= i < |n.elements| :: n.elements[i].value in observed
  {
    CountsAreOccurrences(observed);
    AllMeansEveryChild(n, Counts(observed));
  }

  /** A leaf-only `LeastOne` fails iff none of its values is observed. */
  lemma LeafOnlyLeastOne(n: Node, observed: seq<Value>)
    requires WellFormed(n) && n.kind == LeastOneKind && LeafOnly(n)
    ensures !Holds(n, Counts(observed)) <==> forall i | 0 <= i < |n.elements| :: n.elements[i].value !in observed
  {
    CountsAreOccurrences(observed);
    LeastOneMeansSomeChild(n, Counts(observed));
  }
}
