/**
 * The prepared form of an observed list: a map from each element's key to
 * the number of times it occurs.  It is built once per check and read by
 * every node of the condition tree.
 */
module Prepared {
  import opened Values

  /** The key an element is stored under.  The element is its own key. */
  type Key = Value

  /** Key to occurrence count; a key that is absent occurs zero times. */
  type Hashmap = map<Key, nat>

  function HashmapKey(v: Value): Key {
    v
  }

  /** Two elements share a key exactly when they are equal. */
  lemma HashmapKeyInjective(v: Value, w: Value)
    ensures HashmapKey(v) == HashmapKey(w) <==> v == w
  {
  }

  /** The hashmap of a list, one element at a time from the front. */
  function Counts(s: seq<Value>): Hashmap
    decreases |s|
  {
    if |s| == 0 then map[]
    else
      var m := Counts(s[..|s| - 1]);
      var k := HashmapKey(s[|s| - 1]);
      m[k := (if k in m then m[k] else 0) + 1]
  }

  /** The sum of the counts stored in a hashmap. */
  ghost function CountSum(m: Hashmap): nat
  {
    if m == map[] then 0
    else
      var k :| k in m;
      m[k] + CountSum(m - {k})
  }

  /**
   * The counting loop of the PreparedElements constructor: the first
   * occurrence of a key stores 1, every later one adds 1.
   */
  method CountOccurrences(elements: seq<Value>) returns (hashmap: Hashmap)
    ensures hashmap == Counts(elements)
    ensures forall k :: k in hashmap <==> k in elements
    ensures forall k :: k in hashmap ==> hashmap[k] == multiset(elements)[k] >= 1
  {
    hashmap := map[];
    for i := 0 to |elements|
      invariant hashmap == Counts(elements[..i])
    {
      var hash := HashmapKey(elements[i]);
      assert elements[..i + 1][..i] == elements[..i];
      if hash !in hashmap {
        hashmap := hashmap[hash := 1];
      } else {
        hashmap := hashmap[hash := hashmap[hash] + 1];
      }
    }
    assert elements[..|elements|] == elements;
    CountsAreOccurrences(elements);
  }

  /** A key is stored iff it occurs, and its count is its number of occurrences. */
  lemma {:induction false} CountsAreOccurrences(s: seq<Value>)
    ensures forall k :: k in Counts(s) <==> k in s
    ensures forall k :: k in Counts(s) ==> Counts(s)[k] == multiset(s)[k] >= 1
    decreases |s|
  {
    if |s| > 0 {
      var init := s[..|s| - 1];
      CountsAreOccurrences(init);
      assert s == init + [s[|s| - 1]];
    }
  }

  /** Reordering the observed list gives the same hashmap. */
  lemma CountsOrderIndependent(s: seq<Value>, t: seq<Value>)
    requires multiset(s) == multiset(t)
    ensures Counts(s) == Counts(t)
  {
    CountsAreOccurrences(s);
    CountsAreOccurrences(t);
    forall k ensures k in s <==> k in t {
      assert k in s <==> k in multiset(s);
      assert k in t <==> k in multiset(t);
    }
  }

  lemma {:induction false} CountSumRemove(m: Hashmap, k: Key)
    requires k in m
    ensures CountSum(m) == m[k] + CountSum(m - {k})
    decreases |m|
  {
    var j :| j in m && CountSum(m) == m[j] + CountSum(m - {j});
    if j != k {
      assert |m - {j}| == |m| - 1;
      assert |m - {k}| == |m| - 1;
      CountSumRemove(m - {j}, k);
      CountSumRemove(m - {k}, j);
      assert m - {j} - {k} == m - {k} - {j};
    }
  }

  /** The counts add up to the length of the observed list. */
  lemma {:induction false} CountsSumToLength(s: seq<Value>)
    ensures CountSum(Counts(s)) == |s|
    decreases |s|
  {
    if |s| > 0 {
      var init := s[..|s| - 1];
      var m := Counts(init);
      var k := HashmapKey(s[|s| - 1]);
      CountsSumToLength(init);
      var m' := Counts(s);
      assert m' - {k} == m - {k};
      CountSumRemove(m', k);
      if k in m {
        CountSumRemove(m, k);
      } else {
        assert m - {k} == m;
      }
    }
  }

  /**
   * A prepared observed list.  Both fields are fixed by the constructor and
   * never change afterwards.
   */
  class PreparedElements {
    const elements: seq<Value>
    const hashmap: Hashmap

    constructor (elements: seq<Value>)
      ensures this.elements == elements
      ensures hashmap == Counts(elements)
    {
      var counted := CountOccurrences(elements);
      this.elements := elements;
      hashmap := counted;
    }
  }
}
