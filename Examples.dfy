/**
 * The repository's own test scenarios, stated as lemmas about the model:
 * the fruit conditions, the café order with and without ignored
 * duplicates, and the consent tree.
 */
module Examples {
  import opened Values
  import opened Prepared
  import opened Conditions
  import opened ConditionProperties
  import opened Normalizer
  import opened NormalizerProperties

  const ORANGE := StrV("orange")
  const APPLE := StrV("apple")
  const BANANA := StrV("banana")
  const PINEAPPLE := StrV("PINEAPPLE")
  const OTHER_A := StrV("A")
  const OTHER_B := StrV("B")

  function Fruits(): seq<Child> {
    [Leaf(ORANGE), Leaf(APPLE), Leaf(BANANA)]
  }

  /** The split of a three-leaf node. */
  lemma ThreeLeaves(kind: Kind, a: Value, b: Value, c: Value)
    ensures Build(kind, [Leaf(a), Leaf(b), Leaf(c)]).index == [a, b, c]
    ensures Build(kind, [Leaf(a), Leaf(b), Leaf(c)]).nested == []
    ensures WellFormed(Build(kind, [Leaf(a), Leaf(b), Leaf(c)])) == BoundsOk(kind)
  {
    var es := [Leaf(a), Leaf(b), Leaf(c)];
    assert es[..2] == [Leaf(a), Leaf(b)];
    assert [Leaf(a), Leaf(b)][..1] == [Leaf(a)];
    assert [Leaf(a)][..0] == [];
    assert LeafKeys([Leaf(a)]) == [a] && NestedOf([Leaf(a)]) == [];
    assert LeafKeys([Leaf(a), Leaf(b)]) == [a, b] && NestedOf([Leaf(a), Leaf(b)]) == [];
  }

  lemma ThreeTotal(a: Key, b: Key, c: Key, m: Hashmap, ignoreDuplicates: bool)
    ensures LeafTotal([a, b, c], m, ignoreDuplicates)
         == Contribution(a, m, ignoreDuplicates) + Contribution(b, m, ignoreDuplicates) + Contribution(c, m, ignoreDuplicates)
  {
    var s := [a, b, c];
    assert s[..2] == [a, b];
    assert [a, b][..1] == [a];
    assert [a][..0] == [];
    assert LeafTotal([a], m, ignoreDuplicates) == Contribution(a, m, ignoreDuplicates);
    assert LeafTotal([a, b], m, ignoreDuplicates) == LeafTotal([a], m, ignoreDuplicates) + Contribution(b, m, ignoreDuplicates);
  }

  /** What one observed value adds to a `Limit` count, read off the observed list. */
  function Occurrences(v: Value, observed: seq<Value>, ignoreDuplicates: bool): nat {
    if v in observed then (if ignoreDuplicates then 1 else multiset(observed)[v]) else 0
  }

  /** The count a leaf-only, three-leaf `Limit` compares with its bounds. */
  lemma ThreeLeafLimitTotal(kind: Kind, a: Value, b: Value, c: Value, observed: seq<Value>)
    requires kind.LimitKind?
    ensures LimitTotal(Build(kind, [Leaf(a), Leaf(b), Leaf(c)]), Counts(observed))
      == Occurrences(a, observed, kind.ignoreDuplicates) + Occurrences(b, observed, kind.ignoreDuplicates)
       + Occurrences(c, observed, kind.ignoreDuplicates)
  {
    ThreeLeaves(kind, a, b, c);
    ThreeTotal(a, b, c, Counts(observed), kind.ignoreDuplicates);
    CountsAreOccurrences(observed);
  }

  /** `Limit(['orange', 'apple', 'banana'], 1, 2)`: one or two fruits, counted with repeats. */
  lemma FruitLimit()
    ensures LimitConfig(Some(1), Some(2), false) == Success(LimitKind(Some(1), Some(2), false))
    ensures Holds(Build(LimitKind(Some(1), Some(2), false), Fruits()), Counts([ORANGE, OTHER_A]))
    ensures Holds(Build(LimitKind(Some(1), Some(2), false), Fruits()), Counts([ORANGE, OTHER_A, OTHER_B]))
    ensures Holds(Build(LimitKind(Some(1), Some(2), false), Fruits()), Counts([OTHER_A, OTHER_B, ORANGE]))
    ensures Holds(Build(LimitKind(Some(1), Some(2), false), Fruits()), Counts([ORANGE, APPLE]))
    ensures !Holds(Build(LimitKind(Some(1), Some(2), false), Fruits()), Counts([OTHER_A]))
    ensures !Holds(Build(LimitKind(Some(1), Some(2), false), Fruits()), Counts([OTHER_A, OTHER_B]))
    ensures !Holds(Build(LimitKind(Some(1), Some(2), false), Fruits()), Counts([ORANGE, APPLE, BANANA]))
  {
    var kind := LimitKind(Some(1), Some(2), false);
    ThreeLeafLimitTotal(kind, ORANGE, APPLE, BANANA, [ORANGE, OTHER_A]);
    ThreeLeafLimitTotal(kind, ORANGE, APPLE, BANANA, [ORANGE, OTHER_A, OTHER_B]);
    ThreeLeafLimitTotal(kind, ORANGE, APPLE, BANANA, [OTHER_A, OTHER_B, ORANGE]);
    ThreeLeafLimitTotal(kind, ORANGE, APPLE, BANANA, [ORANGE, APPLE]);
    ThreeLeafLimitTotal(kind, ORANGE, APPLE, BANANA, [OTHER_A]);
    ThreeLeafLimitTotal(kind, ORANGE, APPLE, BANANA, [OTHER_A, OTHER_B]);
    ThreeLeafLimitTotal(kind, ORANGE, APPLE, BANANA, [ORANGE, APPLE, BANANA]);
  }

  lemma FruitLeastOneOn(observed: seq<Value>)
    ensures Holds(Build(LeastOneKind, Fruits()), Counts(observed))
        <==> ORANGE in observed || APPLE in observed || BANANA in observed
  {
    var n := Build(LeastOneKind, Fruits());
    ThreeLeaves(LeastOneKind, ORANGE, APPLE, BANANA);
    LeafOnlyLeastOne(n, observed);
    assert n.elements[0].value == ORANGE && n.elements[1].value == APPLE && n.elements[2].value == BANANA;
  }

  /** `LeastOne(['orange', 'apple', 'banana'])`. */
  lemma FruitLeastOne()
    ensures Holds(Build(LeastOneKind, Fruits()), Counts([ORANGE, APPLE]))
    ensures Holds(Build(LeastOneKind, Fruits()), Counts([PINEAPPLE, ORANGE, APPLE]))
    ensures Holds(Build(LeastOneKind, Fruits()), Counts([ORANGE, APPLE, PINEAPPLE]))
    ensures Holds(Build(LeastOneKind, Fruits()), Counts([ORANGE, APPLE, BANANA]))
    ensures Holds(Build(LeastOneKind, Fruits()), Counts([PINEAPPLE, BANANA]))
    ensures Holds(Build(LeastOneKind, Fruits()), Counts([BANANA]))
    ensures Holds(Build(LeastOneKind, Fruits()), Counts([BANANA, PINEAPPLE]))
    ensures Holds(Build(LeastOneKind, Fruits()), Counts([PINEAPPLE, BANANA, PINEAPPLE]))
    ensures !Holds(Build(LeastOneKind, Fruits()), Counts([PINEAPPLE]))
  {
    FruitLeastOneOn([ORANGE, APPLE]);
    FruitLeastOneOn([PINEAPPLE, ORANGE, APPLE]);
    FruitLeastOneOn([ORANGE, APPLE, PINEAPPLE]);
    FruitLeastOneOn([ORANGE, APPLE, BANANA]);
    FruitLeastOneOn([PINEAPPLE, BANANA]);
    FruitLeastOneOn([BANANA]);
    FruitLeastOneOn([BANANA, PINEAPPLE]);
    FruitLeastOneOn([PINEAPPLE, BANANA, PINEAPPLE]);
    FruitLeastOneOn([PINEAPPLE]);
  }

  lemma FruitAllOn(observed: seq<Value>)
    ensures Holds(Build(AllKind, Fruits()), Counts(observed))
        <==> ORANGE in observed && APPLE in observed && BANANA in observed
  {
    var n := Build(AllKind, Fruits());
    ThreeLeaves(AllKind, ORANGE, APPLE, BANANA);
    LeafOnlyAll(n, observed);
    assert n.elements[0].value == ORANGE && n.elements[1].value == APPLE && n.elements[2].value == BANANA;
  }

  /** `All(['orange', 'apple', 'banana'])`. */
  lemma FruitAll()
    ensures Holds(Build(AllKind, Fruits()), Counts([ORANGE, APPLE, BANANA]))
    ensures Holds(Build(AllKind, Fruits()), Counts([ORANGE, APPLE, BANANA, PINEAPPLE]))
    ensures Holds(Build(AllKind, Fruits()), Counts([PINEAPPLE, ORANGE, APPLE, BANANA]))
    ensures Holds(Build(AllKind, Fruits()), Counts([PINEAPPLE, ORANGE, PINEAPPLE, APPLE, BANANA]))
    ensures Holds(Build(AllKind, Fruits()), Counts([ORANGE, PINEAPPLE, APPLE, BANANA]))
    ensures !Holds(Build(AllKind, Fruits()), Counts([BANANA, PINEAPPLE]))
    ensures !Holds(Build(AllKind, Fruits()), Counts([PINEAPPLE]))
  {
    FruitAllOn([ORANGE, APPLE, BANANA]);
    FruitAllOn([ORANGE, APPLE, BANANA, PINEAPPLE]);
    FruitAllOn([PINEAPPLE, ORANGE, APPLE, BANANA]);
    FruitAllOn([PINEAPPLE, ORANGE, PINEAPPLE, APPLE, BANANA]);
    FruitAllOn([ORANGE, PINEAPPLE, APPLE, BANANA]);
    FruitAllOn([BANANA, PINEAPPLE]);
    FruitAllOn([PINEAPPLE]);
  }

  /** One leaf child per value, in order. */
  function LeavesOf(vs: seq<Value>): (cs: seq<Child>)
    ensures |cs| == |vs| && forall i | 0 <= i < |vs| :: cs[i] == Leaf(vs[i])
  {
    seq(|vs|, i requires 0 <= i < |vs| => Leaf(vs[i]))
  }

  lemma {:induction false} LeavesOfSplit(vs: seq<Value>)
    ensures LeafKeys(LeavesOf(vs)) == vs && NestedOf(LeavesOf(vs)) == []
    decreases |vs|
  {
    if |vs| > 0 {
      var init := vs[..|vs| - 1];
      LeavesOfSplit(init);
      assert LeavesOf(vs)[..|vs| - 1] == LeavesOf(init);
      assert vs == init + [vs[|vs| - 1]];
    }
  }

  /** When only `x` is observed, the leaf count is its contribution once per entry of `index` equal to `x`. */
  lemma {:induction false} LeafTotalOfOneKey(index: seq<Key>, m: Hashmap, x: Key, ignoreDuplicates: bool)
    requires m.Keys == {x}
    ensures LeafTotal(index, m, ignoreDuplicates) == multiset(index)[x] * Contribution(x, m, ignoreDuplicates)
    decreases |index|
  {
    if |index| > 0 {
      var init := index[..|index| - 1];
      var last := index[|index| - 1];
      LeafTotalOfOneKey(init, m, x, ignoreDuplicates);
      assert index == init + [last];
      assert last in m <==> last == x by {
        assert last in m <==> last in m.Keys;
      }
      var c := Contribution(x, m, ignoreDuplicates);
      if last == x {
        assert multiset(index)[x] == multiset(init)[x] + 1;
        assert (multiset(init)[x] + 1) * c == multiset(init)[x] * c + c;
      } else {
        assert multiset(index)[x] == multiset(init)[x];
      }
    }
  }

  /** `x` occurs exactly once in a list without duplicates that holds it. */
  lemma OnceInDistinct(options: seq<Value>, x: Value)
    requires NoDuplicates(options) && x in options
    ensures multiset(options)[x] == 1
  {
    var i :| 0 <= i < |options| && options[i] == x;
    assert options == options[..i] + [x] + options[i + 1..];
    forall j | 0 <= j < |options| && j != i ensures options[j] != x {
      if j < i { assert options[j] != options[i]; } else { assert options[i] != options[j]; }
    }
    assert x !in options[..i];
    assert x !in options[i + 1..];
  }

  lemma TripleCounts(x: Value)
    ensures Counts([x, x, x]) == map[x := 3]
  {
    var s := [x, x, x];
    assert s[..2] == [x, x];
    assert [x, x][..1] == [x];
    assert [x][..0] == [];
    assert Counts([x]) == map[x := 1];
    assert Counts([x, x]) == map[x := 2];
  }

  /** The count of a leaf-only `Limit` over distinct options when one of them is observed three times. */
  lemma TripleTotal(options: seq<Value>, x: Value, kind: Kind)
    requires NoDuplicates(options) && x in options && kind.LimitKind?
    ensures LimitTotal(Build(kind, LeavesOf(options)), Counts([x, x, x])) == if kind.ignoreDuplicates then 1 else 3
  {
    var m := map[x := 3];
    TripleCounts(x);
    var n := Build(kind, LeavesOf(options));
    LeavesOfSplit(options);
    assert n.index == options && n.nested == [];
    OnceInDistinct(options, x);
    LeafTotalOfOneKey(options, m, x, kind.ignoreDuplicates);
    assert LeafTotal(options, m, kind.ignoreDuplicates) == Contribution(x, m, kind.ignoreDuplicates);
    assert LimitTotal(n, m) == LeafTotal(n.index, m, kind.ignoreDuplicates) + Satisfied(n, m, 0);
  }

  /**
   * The café order: a `Limit` with `max: 1` over distinct options holds
   * for three portions of one option when duplicates are ignored, and
   * fails when they are counted.
   */
  lemma IgnoredDuplicates(options: seq<Value>, x: Value)
    requires NoDuplicates(options) && x in options
    ensures Holds(Build(LimitKind(None, Some(1), true), LeavesOf(options)), Counts([x, x, x]))
    ensures !Holds(Build(LimitKind(None, Some(1), false), LeavesOf(options)), Counts([x, x, x]))
  {
    TripleTotal(options, x, LimitKind(None, Some(1), true));
    TripleTotal(options, x, LimitKind(None, Some(1), false));
  }

  const PROTEIN := [
    Token("Protein::Chicken"), Token("Protein::Beef"), Token("Protein::Salmon"), Token("Protein::Tofu"),
    Token("Protein::Shrimp")]

  /** `Limit(Protein::cases(), min: 0, max: 1)` with and without `ignore_duplicates`. */
  lemma TripleChicken()
    ensures LimitConfig(Some(0), Some(1), true) == Success(LimitKind(None, Some(1), true))
    ensures LimitConfig(Some(0), Some(1), false) == Success(LimitKind(None, Some(1), false))
    ensures Holds(Build(LimitKind(None, Some(1), true), LeavesOf(PROTEIN)), Counts([PROTEIN[0], PROTEIN[0], PROTEIN[0]]))
    ensures !Holds(Build(LimitKind(None, Some(1), false), LeavesOf(PROTEIN)), Counts([PROTEIN[0], PROTEIN[0], PROTEIN[0]]))
  {
    IgnoredDuplicates(PROTEIN, PROTEIN[0]);
  }

  // ---------------------------------------------------------------------
  // The consent tree

  /** A `LeastOne` over leaf values. */
  function AnyOf(vs: seq<Value>): Node {
    Build(LeastOneKind, LeavesOf(vs))
  }

  lemma AnyOfMeaning(vs: seq<Value>, observed: seq<Value>)
    ensures WellFormed(AnyOf(vs)) && Preserved(AnyOf(vs))
    ensures Holds(AnyOf(vs), Counts(observed)) <==> exists i | 0 <= i < |vs| :: vs[i] in observed
  {
    LeavesOfSplit(vs);
    LeafOnlyLeastOne(AnyOf(vs), observed);
  }

  lemma AnyOfOptions(vs: seq<Value>, v: Value)
    ensures Reaches(AnyOf(vs), v) <==> v in vs
  {
    var n := AnyOf(vs);
    if v in vs {
      var i :| 0 <= i < |vs| && vs[i] == v;
      assert Occurs(n.elements[i], v);
    }
  }

  function ConsentsChildren(): seq<Child> {
    [Cond(AnyOf([IntV(1), IntV(11)])), Cond(AnyOf([IntV(2), IntV(12)])), Leaf(IntV(3)), Leaf(IntV(4)),
     Cond(AnyOf([IntV(5), IntV(15), IntV(25)]))]
  }

  /** `All([LeastOne([1, 11]), LeastOne([2, 12]), 3, 4, LeastOne([5, 15, 25])])`. */
  function Consents(): Node {
    Build(AllKind, ConsentsChildren())
  }

  lemma ConsentsSplit()
    ensures Consents().index == [IntV(3), IntV(4)]
    ensures Consents().nested == [AnyOf([IntV(1), IntV(11)]), AnyOf([IntV(2), IntV(12)]), AnyOf([IntV(5), IntV(15), IntV(25)])]
    ensures WellFormed(Consents()) && Preserved(Consents())
  {
    var es := ConsentsChildren();
    var a, b, c := es[0].node, es[1].node, es[4].node;
    PartitionKeepsOrder([], [es[0]]);
    assert [] + [es[0]] == [es[0]];
    PartitionKeepsOrder([es[0]], [es[1]]);
    PartitionKeepsOrder([es[0], es[1]], [es[2]]);
    assert [es[0], es[1]] + [es[2]] == [es[0], es[1], es[2]];
    PartitionKeepsOrder([es[0], es[1], es[2]], [es[3]]);
    assert [es[0], es[1], es[2]] + [es[3]] == [es[0], es[1], es[2], es[3]];
    PartitionKeepsOrder([es[0], es[1], es[2], es[3]], [es[4]]);
    assert [es[0], es[1], es[2], es[3]] + [es[4]] == es;
    AnyOfMeaning([IntV(1), IntV(11)], []);
    AnyOfMeaning([IntV(2), IntV(12)], []);
    AnyOfMeaning([IntV(5), IntV(15), IntV(25)], []);
    assert Consents().nested == [a, b, c];
  }

  lemma AnyOfTwo(a: Value, b: Value, observed: seq<Value>)
    ensures Holds(AnyOf([a, b]), Counts(observed)) <==> a in observed || b in observed
  {
    AnyOfMeaning([a, b], observed);
    if a in observed { assert [a, b][0] in observed; }
    if b in observed { assert [a, b][1] in observed; }
  }

  lemma AnyOfThree(a: Value, b: Value, c: Value, observed: seq<Value>)
    ensures Holds(AnyOf([a, b, c]), Counts(observed)) <==> a in observed || b in observed || c in observed
  {
    AnyOfMeaning([a, b, c], observed);
    if a in observed { assert [a, b, c][0] in observed; }
    if b in observed { assert [a, b, c][1] in observed; }
    if c in observed { assert [a, b, c][2] in observed; }
  }

  /** What each child of the consent tree asks of the observed list. */
  lemma ConsentsChildrenMeaning(observed: seq<Value>)
    ensures ChildHolds(ConsentsChildren()[0], Counts(observed)) <==> IntV(1) in observed || IntV(11) in observed
    ensures ChildHolds(ConsentsChildren()[1], Counts(observed)) <==> IntV(2) in observed || IntV(12) in observed
    ensures ChildHolds(ConsentsChildren()[2], Counts(observed)) <==> IntV(3) in observed
    ensures ChildHolds(ConsentsChildren()[3], Counts(observed)) <==> IntV(4) in observed
    ensures ChildHolds(ConsentsChildren()[4], Counts(observed)) <==> IntV(5) in observed || IntV(15) in observed || IntV(25) in observed
  {
    CountsAreOccurrences(observed);
    AnyOfTwo(IntV(1), IntV(11), observed);
    AnyOfTwo(IntV(2), IntV(12), observed);
    AnyOfThree(IntV(5), IntV(15), IntV(25), observed);
  }

  /** The consent tree holds iff 1 or 11, 2 or 12, 3, 4, and one of 5, 15, 25 are all given. */
  lemma ConsentsMeaning(observed: seq<Value>)
    ensures Holds(Consents(), Counts(observed)) <==>
      && (IntV(1) in observed || IntV(11) in observed)
      && (IntV(2) in observed || IntV(12) in observed)
      && IntV(3) in observed && IntV(4) in observed
      && (IntV(5) in observed || IntV(15) in observed || IntV(25) in observed)
  {
    var m := Counts(observed);
    var es := ConsentsChildren();
    ConsentsSplit();
    AllMeansEveryChild(Consents(), m);
    ConsentsChildrenMeaning(observed);
    assert (forall i | 0 <= i < |es| :: ChildHolds(es[i], m)) <==>
      ChildHolds(es[0], m) && ChildHolds(es[1], m) && ChildHolds(es[2], m) && ChildHolds(es[3], m) && ChildHolds(es[4], m);
  }

  /** The consent checks of the repository's tests: 1, 12, 3, 4, 25 (and more) are enough. */
  lemma ConsentsFirstCustomer()
    ensures Holds(Consents(), Counts([IntV(1), IntV(12), IntV(3), IntV(4), IntV(25), IntV(8), IntV(80)]))
  {
    var s := [IntV(1), IntV(12), IntV(3), IntV(4), IntV(25), IntV(8), IntV(80)];
    ConsentsMeaning(s);
    assert s[0] == IntV(1) && s[1] == IntV(12) && s[2] == IntV(3) && s[3] == IntV(4) && s[4] == IntV(25);
  }

  /** 11, 2, 3, 4, 5 are enough. */
  lemma ConsentsSecondCustomer()
    ensures Holds(Consents(), Counts([IntV(11), IntV(2), IntV(3), IntV(4), IntV(5)]))
  {
    var s := [IntV(11), IntV(2), IntV(3), IntV(4), IntV(5)];
    ConsentsMeaning(s);
    assert s[0] == IntV(11) && s[1] == IntV(2) && s[2] == IntV(3) && s[3] == IntV(4) && s[4] == IntV(5);
  }

  /** 1, 2, 3, 11 are not: 4 is missing.  Nothing given is not enough either. */
  lemma ConsentsRefused()
    ensures !Holds(Consents(), Counts([IntV(1), IntV(2), IntV(3), IntV(11)]))
    ensures !Holds(Consents(), Counts([]))
  {
    var s := [IntV(1), IntV(2), IntV(3), IntV(11)];
    ConsentsMeaning(s);
    assert IntV(4) !in s;
    ConsentsMeaning([]);
  }

  /** The options of the consent tree are 1, 11, 2, 12, 3, 4, 5, 15 and 25. */
  lemma ConsentsOptions(v: Value)
    ensures Reaches(Consents(), v) <==>
      v in [IntV(1), IntV(11), IntV(2), IntV(12), IntV(3), IntV(4), IntV(5), IntV(15), IntV(25)]
  {
    var es := ConsentsChildren();
    AnyOfOptions([IntV(1), IntV(11)], v);
    AnyOfOptions([IntV(2), IntV(12)], v);
    AnyOfOptions([IntV(5), IntV(15), IntV(25)], v);
    assert (exists i | 0 <= i < |es| :: Occurs(es[i], v)) <==>
      Occurs(es[0], v) || Occurs(es[1], v) || Occurs(es[2], v) || Occurs(es[3], v) || Occurs(es[4], v);
  }

  /** A PHP list: the values under the keys 0, 1, 2, ... */
  function ListOf(vs: seq<Value>): Value {
    ArrV(seq(|vs|, i requires 0 <= i < |vs| => Entry(IntKey(i), vs[i])))
  }

  /** The tagged array under the default keys. */
  function Tag(name: string, data: seq<Value>): Value {
    ArrV([Entry(StrKey("type"), StrV(name)), Entry(StrKey("data"), ListOf(data))])
  }

  /** `{"type":"all","data":[{"type":"least_one","data":[1,11]},{"type":"least_one","data":[2,12]},3,4,{"type":"least_one","data":[5,15,25]}]}` */
  function ConsentsJson(): Value {
    Tag("all", [Tag("least_one", [IntV(1), IntV(11)]), Tag("least_one", [IntV(2), IntV(12)]), IntV(3), IntV(4),
                Tag("least_one", [IntV(5), IntV(15), IntV(25)])])
  }

  /** A `LeastOne` over integers normalises to its name and the list of the integers. */
  lemma AnyOfNormalised(vs: seq<Value>)
    requires forall i | 0 <= i < |vs| :: vs[i].IntV?
    ensures Encode(DefaultNormalizer(), AnyOf(vs)) == Success(Tag("least_one", vs))
  {
    var nz := DefaultNormalizer();
    var n := AnyOf(vs);
    EncodeSucceedsIff(nz, n);
    EncodeElementsShape(nz, n, |vs|);
    var data := EncodeElements(nz, n, |vs|).value;
    assert data == ListOf(vs).entries;
  }

  /** The consent tree normalises to the repository's expected JSON. */
  lemma ConsentsNormalised()
    ensures Encode(DefaultNormalizer(), Consents()) == Success(ConsentsJson())
  {
    var nz := DefaultNormalizer();
    var n := Consents();
    var es := ConsentsChildren();
    AnyOfNormalised([IntV(1), IntV(11)]);
    AnyOfNormalised([IntV(2), IntV(12)]);
    AnyOfNormalised([IntV(5), IntV(15), IntV(25)]);
    assert Encodable(nz, n) by {
      assert forall i | 0 <= i < |es| :: ChildEncodable(nz, es[i]) by {
        EncodeSucceedsIff(nz, es[0].node);
        EncodeSucceedsIff(nz, es[1].node);
        EncodeSucceedsIff(nz, es[4].node);
      }
    }
    EncodeSucceedsIff(nz, n);
    EncodeElementsShape(nz, n, |es|);
    var data := EncodeElements(nz, n, |es|).value;
    assert data == ConsentsJson().entries[1].val.entries;
  }

  /**
   * As written, `normalize` fails on the consent tree, which the repository
   * expects to normalise to the JSON above.
   */
  lemma ConsentsNormaliseAsWritten()
    ensures EncodeAsWritten(DefaultNormalizer(), Consents()) == Failure(UndefinedMethod("get_elements"))
    ensures Encode(DefaultNormalizer(), Consents()) == Success(ConsentsJson())
  {
    ConsentsNormalised();
  }

  /** The expected JSON denormalises to the consent tree, which then gives the expected checks. */
  lemma ConsentsDenormalised()
    ensures Decode(DefaultNormalizer(), ConsentsJson()) == Success(Consents())
    ensures Holds(Decode(DefaultNormalizer(), ConsentsJson()).value, Counts([IntV(1), IntV(12), IntV(3), IntV(4), IntV(25), IntV(8), IntV(80)]))
    ensures Holds(Decode(DefaultNormalizer(), ConsentsJson()).value, Counts([IntV(11), IntV(2), IntV(3), IntV(4), IntV(5)]))
    ensures !Holds(Decode(DefaultNormalizer(), ConsentsJson()).value, Counts([IntV(1), IntV(2), IntV(3), IntV(11)]))
    ensures !Holds(Decode(DefaultNormalizer(), ConsentsJson()).value, Counts([]))
  {
    DefaultNormalizerBuilt();
    ConsentsNormalised();
    ConsentsSplit();
    EncodeSucceedsIff(DefaultNormalizer(), Consents());
    RoundTripPreserved(DefaultNormalizer(), Consents());
    ConsentsFirstCustomer();
    ConsentsSecondCustomer();
    ConsentsRefused();
  }

  /**
   * `Limit(['orange', 'apple', 'banana'], 1, 2)` fails on an empty list,
   * but the condition it normalises to and back holds there.
   */
  lemma FruitLimitForgetsBounds()
    ensures Encode(DefaultNormalizer(), Build(LimitKind(Some(1), Some(2), false), Fruits())).Success?
    ensures !Holds(Build(LimitKind(Some(1), Some(2), false), Fruits()), Counts([]))
    ensures
      var e := Encode(DefaultNormalizer(), Build(LimitKind(Some(1), Some(2), false), Fruits())).value;
      e.ArrV? && Decode(DefaultNormalizer(), e).Success? && Holds(Decode(DefaultNormalizer(), e).value, Counts([]))
  {
    var nz := DefaultNormalizer();
    var kind := LimitKind(Some(1), Some(2), false);
    var n := Build(kind, Fruits());
    DefaultNormalizerBuilt();
    assert Encodable(nz, n) by {
      assert forall i | 0 <= i < 3 :: n.elements[i].Leaf? && n.elements[i].value.StrV?;
    }
    EncodeSucceedsIff(nz, n);
    LimitLosesBounds(nz, n);
    ThreeLeafLimitTotal(kind, ORANGE, APPLE, BANANA, []);
  }
}
