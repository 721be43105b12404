# ap-lib/conditions, modelled in Dafny

The library evaluates condition trees against an observed list of values.
A condition is one of three variants, each built from a list of children:

- `All`: every leaf is observed and every nested condition holds.
- `LeastOne`: some leaf is observed or some nested condition holds.
- `Limit`: the number of satisfied children lies between optional bounds. A leaf counts its
  occurrences, or just 1 when duplicates are ignored; a nested condition counts 1 when it holds.

A check first turns the observed list into a prepared map, from each element's key to its
number of occurrences. It then evaluates the tree against that map, once, at every depth.
The `Normalizer` reads nested tagged arrays `[type => name, data => [child, ...]]` back into a tree,
using a registry that maps names to condition classes. The corrected `normalize` (see "## Findings")
writes a tree as such arrays. As written, `normalize` fails for every registered condition.

The modules follow the source files:

| module | models |
|---|---|
| `Values` | PHP values, arrays as ordered entries, `isset` on array keys, `(string)` of keys |
| `Prepared` | `PreparedElements`: the counting loop and the prepared map |
| `Conditions` | `Base`, `All`, `LeastOne`, `Limit`: construction, the meaning `Holds`, the three `checkPrepared` loops, `check`, `getAllOptionsRecursive` |
| `ConditionProperties` | what the engine promises: the split, the variants as forall, exists and bounded count, and independence of order and repeats |
| `Normalizer` | the constructor's registry loop, `normalize`, `denormalize`, leaf validation |
| `NormalizerProperties` | which registries and trees are accepted, and the round trip |
| `Examples` | the repository's test scenarios: fruits, café order, consents |

Condition objects are readonly, so a node is an immutable datatype `Node(kind, elements, index, nested)`.
`WellFormed` states that `index` and `nested` are the split of `elements`, with the `Limit` bounds the
constructor accepts, at every depth. `PreparedElements` is a class whose fields are set once by its constructor.
The loops of the source are methods. Most of them are proved equal to a specification function:
the counting loop, the split loop, the three `checkPrepared` loops, the registry loop, the corrected
`normalize` and `denormalize`. Two loops are treated differently:
- The option collection (`Conditions.AllOptionsRecursive`) is proved against the reachability predicate
  `Reaches`: its result is duplicate-free and holds exactly the reachable leaves.
- The inner `foreach` of leaf validation (src/Normalizer.php:79-81) is the recursive predicate
  `Normalisable`, used by the function `Validate`.

The round trip (`NormalizerProperties.RoundTrip`) shows what `denormalize(normalize(T))` gives, for the
corrected `normalize` (see "## Findings"): the same
tree with every `Limit` reset to no bounds and counted duplicates, because only the type name and the
children are written. Trees built by the constructors whose every `Limit` is unbounded and counts duplicates come back unchanged (`RoundTripPreserved`).
`Examples.FruitLimitForgetsBounds` shows that the meaning of a bounded `Limit` can change on the way.

## Model

| member | source | states |
|---|---|---|
| `Prepared.HashmapKeyInjective` | src/PreparedElements.php:16-19 | two elements get the same key exactly when they are equal, the property the source relies on from `serialize()` |
| `Prepared.CountOccurrences` | src/PreparedElements.php:33-42 | the loop builds `Counts(elements)`; a key is stored iff some element has it, and its count is that element's number of occurrences, at least 1 |
| `Prepared.CountsAreOccurrences` | src/PreparedElements.php:34-41 | for every list, a key is in the map iff it occurs in the list, and its count is its multiplicity |
| `Prepared.CountsOrderIndependent` | src/PreparedElements.php:34-41 | two lists with the same multiset of elements give the same map |
| `Prepared.CountsSumToLength` | src/PreparedElements.php:34-41 | the counts of the map add up to the length of the list |
| `Prepared.PreparedElements.constructor` | src/PreparedElements.php:31-43 | keeps the list unchanged and stores its counting map |
| `Conditions.NewBase` | src/Base.php:20-39 | the node keeps its variant and children, which `getElements` returns; `index` holds the keys of the leaf children, `nested` the condition children; accepted bounds and well-formed children give a well-formed node |
| `Conditions.LimitConfig` | src/Limit.php:24-40 | fails iff `min < 0`, `max < 1`, or `min > max`, in that order; on success the bounds are accepted, `max` and `ignore_duplicates` are kept, `min` 0 becomes unset, and the bounds test is unchanged for every count |
| `Conditions.NewLimit` | src/Limit.php:16-41 | fails exactly as `LimitConfig` does; otherwise builds the node from the children with the accepted configuration, well-formed when its children are |
| `Conditions.CheckPrepared` | src/Base.php:65 | on a well-formed node, each variant's evaluation returns `Holds` |
| `Conditions.AllCheckPrepared` | src/All.php:10-25 | the early-exit searches over leaf keys and then nested conditions return `Holds` of an `All` |
| `Conditions.LeastOneCheckPrepared` | src/LeastOne.php:10-25 | the early-exit searches return `Holds` of a `LeastOne` |
| `Conditions.LimitCheckPrepared` | src/Limit.php:43-82 | the running count with early exits returns whether the total of leaf contributions and satisfied nested conditions lies within `[min, max]` |
| `Conditions.Check` | src/Base.php:57-63 | `check` on a raw list evaluates against that list's counting map `Counts`; on a prepared list it uses the stored map |
| `Conditions.Unique` | src/Base.php:53 | the result has no duplicates and the same members as its input |
| `Conditions.AllOptionsRecursive` | src/Base.php:41-54 | the options are duplicate-free and are exactly the leaves reachable at any depth |
| `ConditionProperties.PartitionExact` | src/Base.php:25-31 | every child lands in exactly one of `index` and `nested`: the sizes add up, and each value and node keeps its multiplicity |
| `ConditionProperties.PartitionMembership` | src/Base.php:25-31 | a key is in `index` iff it is a leaf child; a node is in `nested` iff it is a condition child |
| `ConditionProperties.PartitionKeepsOrder` | src/Base.php:25-31 | splitting a concatenation concatenates the splits, so order is kept |
| `ConditionProperties.AllMeansEveryChild` | src/All.php:10-25 | an `All` holds iff every child, leaf or condition, is satisfied |
| `ConditionProperties.LeastOneMeansSomeChild` | src/LeastOne.php:10-25 | a `LeastOne` holds iff some child is satisfied |
| `ConditionProperties.EmptyAllHolds` | src/All.php:24 | an `All` without children holds |
| `ConditionProperties.EmptyLeastOneFails` | src/LeastOne.php:24 | a `LeastOne` without children fails |
| `ConditionProperties.UnboundedLimitHolds` | src/Limit.php:45-47 | a `Limit` with neither bound holds whatever is observed |
| `ConditionProperties.LimitTotalOverChildren` | src/Limit.php:51-75 | the `Limit` count is the sum over the children in order: a leaf adds its count or 1, a nested condition 1 when it holds, whatever `ignore_duplicates` is |
| `ConditionProperties.IgnoringDuplicatesCountsLess` | src/Limit.php:53 | ignoring duplicates never makes the leaf count larger |
| `ConditionProperties.PresenceOnly` | src/All.php:13 | when every `Limit` ignores duplicates, only which keys are present matters |
| `ConditionProperties.MorePresentNeverHurts` | src/All.php:10-25 | without `Limit`, more present keys never turn true into false |
| `ConditionProperties.LeafTotalMonotone` | src/Limit.php:51-62 | when every key of one hashmap is in another at least as often, the leaf part of a `Limit` count is no larger on the first |
| `ConditionProperties.SatisfiedMonotone` | src/Limit.php:64-75 | with more keys present, no fewer `Limit`-free nested conditions hold |
| `ConditionProperties.CountsGrow` | src/PreparedElements.php:34-41 | observing more elements keeps every key and never lowers its count |
| `ConditionProperties.LimitCountGrows` | src/Limit.php:43-82 | observing more elements never lowers the count of a `Limit` whose nested conditions are `Limit`-free |
| `ConditionProperties.OverMaxStaysFailing` | src/Limit.php:51-75 | such a `Limit` whose count is over `max` fails, and keeps failing whatever else is observed |
| `ConditionProperties.NoMaxStaysHolding` | src/Limit.php:51-81 | such a `Limit` without `max` that holds keeps holding whatever else is observed |
| `ConditionProperties.OrderIndependent` | tests/ConditionTest.php:32-36 | reordering the observed list never changes the result |
| `ConditionProperties.ExtraElementsNeverHurt` | tests/ConditionTest.php:30-39 | without `Limit`, extra observed elements never turn true into false |
| `ConditionProperties.RepeatsNeverMatter` | tests/CafeOrderTest.php:184-194 | when no `Limit` counts duplicates, observing an element again never changes the result |
| `ConditionProperties.LeafOnlyAll` | tests/ConditionTest.php:28-40 | a leaf-only `All` holds iff every leaf value is observed |
| `ConditionProperties.LeafOnlyLeastOne` | tests/ConditionTest.php:12-26 | a leaf-only `LeastOne` fails iff none of its leaf values is observed |
| `Normalizer.EncodeAsWritten` | src/Normalizer.php:91-121 | as written, `normalize` refuses an unregistered class and otherwise fails on the undefined `get_elements` |
| `Normalizer.NewNormalizer` | src/Normalizer.php:35-66 | the key comparison and the registry loop give the outcome `MakeNormalizer` |
| `Normalizer.Validate` | src/Normalizer.php:69-89 | a leaf is accepted unchanged iff it is made of ints, strings, bools and arrays and is not a top-level array with both keys; the latter is refused first |
| `Normalizer.Normalize` | src/Normalizer.php:91-121 | the recursive loop gives `Encode` |
| `Normalizer.Lookup` | src/Normalizer.php:134-140 | a name found belongs to a registration of that class, the first one with that name; no result iff no registration has the name |
| `Normalizer.KindOf` | src/Normalizer.php:159 | the rebuilt variant is the class looked up, with bounds a `Limit` accepts |
| `Normalizer.Denormalize` | src/Normalizer.php:123-160 | the recursive loop gives `Decode`; `DecodeSucceedsIff` and `DecodeRejections` state which arrays it accepts and how it rejects the others |
| `NormalizerProperties.ReverseMapMeaning` | src/Normalizer.php:51-66 | the registry is accepted iff every class is a condition class and none is registered twice; the reverse map then sends each registered class to its name, and holds nothing else |
| `NormalizerProperties.ReverseMapErrors` | src/Normalizer.php:53-64 | a rejection names a registered class that is not a condition, or a class with its earlier and later names |
| `NormalizerProperties.ConstructorAccepts` | src/Normalizer.php:35-66 | the constructor succeeds iff the keys differ as strings and the registry is accepted; equal keys are refused first; the result keeps the registry and keys |
| `NormalizerProperties.DefaultNormalizerBuilt` | src/Normalizer.php:23-33 | the default arguments build the normaliser with names `all`, `least_one`, `limit` and keys `type`, `data` |
| `NormalizerProperties.LookupRegistered` | src/Normalizer.php:134-140 | the name registered for a class looks up that class |
| `NormalizerProperties.EncodeSucceedsIff` | src/Normalizer.php:91-121 | a tree normalises iff every class in it is registered and every leaf passes validation |
| `NormalizerProperties.EncodeElementsShape` | src/Normalizer.php:101-115 | the children normalise iff each does; child `k` is then stored under key `k`, in order |
| `NormalizerProperties.EncodeShape` | src/Normalizer.php:117-120 | the output is the tagged array of the registered name and one entry per child |
| `NormalizerProperties.NormalizeAsWrittenFails` | src/Normalizer.php:105 | `normalize` as written fails for every tree, including every tree the corrected version normalises |
| `NormalizerProperties.RoundTrip` | src/Normalizer.php:91-160 | denormalising a normalised tree gives the tree with each variant at its default configuration |
| `NormalizerProperties.ReconstructedIdentity` | src/Normalizer.php:159 | the rebuilt tree equals the original iff, at every depth, `index` and `nested` are the split of the children the constructors make, and every `Limit` is unbounded and counts duplicates |
| `NormalizerProperties.RoundTripPreserved` | tests/ConsentsTest.php:32-53 | for such trees that can be normalised, denormalising the normalised tree gives back the tree itself |
| `NormalizerProperties.LimitLosesBounds` | src/Normalizer.php:117-120 | a normalised `Limit` comes back with no bounds and counting duplicates |
| `NormalizerProperties.DecodeSucceedsIff` | src/Normalizer.php:123-160 | an array denormalises iff both keys are present, the type is the registered name of a condition class, the data is an array, and every child carrying both keys denormalises in turn |
| `NormalizerProperties.DecodeElementsSucceedIff` | src/Normalizer.php:148-157 | the children denormalise iff each child carrying both keys does; a failure among them is never the missing-keys error |
| `NormalizerProperties.DecodeRejections` | src/Normalizer.php:125-144 | the missing-keys error comes exactly when a key is absent; then an array type field, which the registry lookup refuses as an illegal offset (PHP's TypeError); then an unregistered type, then data that is not an array, then, once the children are rebuilt, a registered class that is not a condition |
| `NormalizerProperties.DecodedWellFormed` | src/Normalizer.php:148-159 | every denormalised tree is one the constructors build, so it can be checked |
| `Examples.FruitLimit` | tests/ConditionTest.php:42-54 | `Limit(['orange','apple','banana'], 1, 2)` is accepted, holds on each of the four lists the test accepts and fails on each of the three it refuses |
| `Examples.FruitLeastOne` | tests/ConditionTest.php:12-26 | `LeastOne` of the fruits holds on each of the eight lists the test accepts and fails on `['PINEAPPLE']` |
| `Examples.FruitAll` | tests/ConditionTest.php:28-40 | `All` of the fruits holds on each of the five lists the test accepts and fails on the two it refuses |
| `Examples.IgnoredDuplicates` | tests/CafeOrderTest.php:148-181 | over distinct options, three copies of one satisfy `max: 1` when duplicates are ignored and not otherwise |
| `Examples.TripleChicken` | tests/CafeOrderTest.php:161-181 | the protein limits accept `min: 0`, and three chickens pass with `ignore_duplicates` and fail without |
| `Examples.ConsentsMeaning` | tests/ConsentsTest.php:14-20 | the consent tree holds iff 1 or 11, 2 or 12, 3, 4, and one of 5, 15, 25 are given |
| `Examples.ConsentsFirstCustomer` | tests/ConsentsTest.php:23-28 | the consents `[1, 12, 3, 4, 25, 8, 80]` pass |
| `Examples.ConsentsSecondCustomer` | tests/ConsentsTest.php:77 | the consents `[11, 2, 3, 4, 5]` pass |
| `Examples.ConsentsRefused` | tests/ConsentsTest.php:78-79 | the consents `[1, 2, 3, 11]` and no consents fail |
| `Examples.ConsentsOptions` | tests/ConsentsTest.php:26-29 | the options of the consent tree are 1, 11, 2, 12, 3, 4, 5, 15, 25; the test calls `get_all_options_recursive()`, which is defined nowhere (`Base` defines `getAllOptionsRecursive`), so the lemma states what the defined method gives |
| `Examples.ConsentsNormalised` | tests/ConsentsTest.php:44-48 | the consent tree normalises to the expected JSON structure |
| `Examples.ConsentsNormaliseAsWritten` | src/Normalizer.php:105 | as written, normalising the consent tree fails, though the corrected version gives the expected structure |
| `Examples.ConsentsDenormalised` | tests/ConsentsTest.php:72-79 | the expected JSON denormalises to the consent tree, which passes the two accepted lists of consents and refuses `[1, 2, 3, 11]` and no consents |
| `Examples.FruitLimitForgetsBounds` | src/Normalizer.php:117-120 | the fruit `Limit(1, 2)` fails on an empty list, but what it normalises to and back holds there |

## Left out

- Element keys: `makeHashmapKey` is PHP's `serialize()`; the model uses the value itself as its key (`Prepared.HashmapKey`), so equal values share a key and different values do not.
- Floats, objects and enum cases are one kind of value, `Token(name)`, compared by name; objects are not compared by their properties. `serialize()` (src/PreparedElements.php:18) throws for closures and anonymous-class objects, so the `Base` constructor (src/Base.php:29) and `PreparedElements` (src/PreparedElements.php:35) can fail on such a leaf; `Token` cannot express that failure, and the model never fails there.
- PHP null is not a value of the model, so `isset` never meets a null entry.
- PHP array-key coercion is not modelled. Numeric-string keys and bool keys do not become integers, in the type and data keys, in the registry names or in the type lookup. A type field must be a string (`Normalizer.TypeClass`).
- The constructor compares `(string)$type == (string)$data` by exact string equality. PHP's numeric comparison of numeric strings (`"1" == "01"`) is not modelled.
- The positions that `index` and `nested` keep from the children array are not modelled; the source never reads them.
- Conditions.Unique: deduplicates by value equality and returns a list. `array_unique` compares string casts and keeps the original keys. The string cast throws an Error for enum cases and objects (the `Token` leaves of the café trees in tests/CafeOrderTest.php) and turns every array leaf into `"Array"`. So `getAllOptionsRecursive` (src/Base.php:53) throws, or merges distinct array leaves, on inputs where `Conditions.AllOptionsRecursive` returns every option.
- Conditions.AllOptionsRecursive: states membership and the absence of duplicates, not the order of first occurrences.
- The `element_normalizer` and `element_denormalizer` callables and their `is_callable` checks are not modelled: both are absent, so leaves pass through unchanged.
- Class names are compared by exact string. PHP resolves class names case-insensitively for reflection and `new`, but normalize finds a class with `isset($this->conditions_hashmap[$class])` on the exact `::class` string (src/Normalizer.php:93-94). A registry naming `'ap\conditions\all'` passes the constructor, and normalize then refuses `All` as unregistered. `Normalizer.ClassRef` cannot express such a registry, so this case is not modelled.
- Reflection is a fixed set of classes (`Normalizer.ClassRef`): the three variants, plus `Foreign` for a class that does not implement the condition interface. User-defined condition classes are not modelled.
- Normalizer.Denormalize: an object or enum type field is a `Token`, reported as `UnrecognizedType`, where the `isset` of src/Normalizer.php:134 throws a TypeError for an illegal offset (an array type field is modelled as `IllegalTypeOffset`). `NormalizerProperties.DecodeRejections` states the same for such a field.
- `denormalize` takes a PHP array; the model demands an array value (`requires v.ArrV?`) rather than modelling the type error.
- Exceptions and their messages are error values of `Result`.
- `json_encode` and `json_decode` are not modelled; the JSON of the tests appears as the PHP array it decodes to (`Examples.ConsentsJson`).
- The remaining salad orders of tests/CafeOrderTest.php are not restated; `Examples.TripleChicken` covers the protein limits.

## Findings

| source | as written | input that shows it | evidently intended | confidence | as-written member | corrected member |
|---|---|---|---|---|---|---|
| src/Normalizer.php:105 | `normalize` iterates over `$condition->get_elements()`. The condition interface and `Base` define only `getElements()` (src/ConditionInterface.php:30, src/Base.php:36), so the call fails for every registered condition | the consent tree of tests/ConsentsTest.php:36-42 with the default normaliser | iterate over the children returned by `getElements()` and emit the JSON expected at tests/ConsentsTest.php:46 | high; not executed | `Normalizer.EncodeAsWritten`, `Examples.ConsentsNormaliseAsWritten` | `Normalizer.Encode` |
