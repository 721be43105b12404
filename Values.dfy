/**
 * The plain values that flow through the condition engine: the leaves of a
 * condition tree, the observed elements, and the tagged arrays the
 * normaliser emits and reads back.  PHP arrays are ordered maps whose keys
 * are integers or strings; they are modelled as sequences of entries whose
 * keys are distinct in every array PHP can build.
 */
module Values {

  datatype Option<+T> = None | Some(value: T)

  datatype Result<+T, +E> = Success(value: T) | Failure(error: E)

  /** A PHP array key. */
  datatype ArrayKey = IntKey(i: int) | StrKey(s: string)

  /**
   * A leaf or observed element.  `Token` stands for every value that is not
   * an int, a string, a bool or an array (an enum case, an object, a float):
   * such values can be compared and counted, but not normalised.
   */
  datatype Value =
    | IntV(i: int)
    | StrV(s: string)
    | BoolV(b: bool)
    | ArrV(entries: seq<Entry>)
    | Token(name: string)

  datatype Entry = Entry(key: ArrayKey, val: Value)

  /** Position of the first entry whose key is `k`. */
  function FindKey(entries: seq<Entry>, k: ArrayKey): (r: Option<nat>)
    ensures r.Some? ==> r.value < |entries| && entries[r.value].key == k
    ensures r.Some? ==> forall j :: 0 <= j < r.value ==> entries[j].key != k
    ensures r.None? ==> forall j :: 0 <= j < |entries| ==> entries[j].key != k
  {
    if |entries| == 0 then None
    else if entries[0].key == k then Some(0)
    else
      match FindKey(entries[1..], k)
      case None => None
      case Some(j) => Some(j + 1)
  }

  /** PHP's `isset($array[$k])` for an array whose values are never null. */
  predicate HasKey(entries: seq<Entry>, k: ArrayKey) {
    FindKey(entries, k).Some?
  }

  /** Decimal digits of a natural number, most significant first. */
  function Digits(n: nat): string
    decreases n
  {
    var d := ['0', '1', '2', '3', '4', '5', '6', '7', '8', '9'][n % 10];
    if n < 10 then [d] else Digits(n / 10) + [d]
  }

  /** PHP's `(string)$i` for an integer. */
  function DecimalString(i: int): string {
    if i < 0 then "-" + Digits(-i) else Digits(i)
  }

  /** PHP's `(string)$k` for an array key. */
  function KeyString(k: ArrayKey): string {
    match k
    case IntKey(i) => DecimalString(i)
    case StrKey(s) => s
  }

  /** No two positions of `s` hold the same value. */
  predicate NoDuplicates<T(==)>(s: seq<T>) {
    forall i, j :: 0 <= i < j < |s| ==> s[i] != s[j]
  }
}
