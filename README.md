# date-search, modelled in Dafny

`dateSearch(array, target, comparator, dateSearchMode)` runs a binary search over an
array that is sorted by time. Each probe compares `target` with `array[mid]` through a
comparator. The comparator argument is one of three things: a function, a dotted field
path (which goes to `deepTimeComparator`), or nothing (which falls back to
`defaultTimeComparator`). An exact hit returns `{index, value}` at once. On a miss the
mode decides the result: `"exact"` and unknown modes give nulls, `"floor"` gives the
final `left`, and `"ceil"` gives `left + 1` clamped to the last index. The default
comparator subtracts the dayjs instants of both values when `isDateType` holds of both
values, and uses `parseToValidNumber` for both values otherwise.

The model has six modules:

- `Wrappers` (`wrappers.dfy`): `Option` (JS `null`/`undefined`) and `Result` (a value or a thrown error).
- `JsValues` (`js_values.dfy`): the JavaScript values involved (undefined, null, booleans,
  numbers, strings, arrays, plain objects), `typeof`, lodash `isEmpty`,
  `Object.keys(..).length`, and lodash `get` with dotted paths. It also defines
  `Comparison`, what a comparator returns: a number, NaN, or a thrown error.
- `Coercion` (`coercion.dfy`): `isDateType`, `parseToValidNumber`, `defaultTimeComparator`
  and `deepTimeComparator`. dayjs (`dayjs(x).unix()`, which is NaN when
  `isValid()` fails) and `parseFloat(String(x))` are parameters, bundled in a `Foreign` record.
- `DateSearch` (`date_search.dfy`): the generic engine. `Search` is the loop and the mode
  switch as an imperative method. Its contract ties it to the function `SearchSpec`, built
  from `Loop` and `ResolveMiss`. The lemmas state what the search guarantees on input
  sorted for the comparator.
- `Dispatch` (`dispatch.dfy`): the `comparisonFn` closure and `dateSearch` over JavaScript values.
- `Findings` (`findings.dfy`): four places where the code disagrees with its own names
  and tests. Each has a lemma on the code as written and a corrected definition with
  its property proved.

The array is a `seq`, an immutable value, so no model operation can modify it. Comparator
results are integers, NaN or a thrown error. Only their sign is observed, and NaN falls into
the `left = mid + 1` branch because it is neither `=== 0` nor `< 0`. A comparator that
throws ends the search with that exception: the `Raised` outcome.

A reader might expect a usage error for an empty target, a range query and a clamped floor. The model follows the code:

- There is no usage error for an empty target.
- There is no range query.
- `"floor"` is neither clamped nor re-probed at index 0.
- `deepTimeComparator` reads the path from the target as well as from the candidate.

## Model

| member | source | states |
|---|---|---|
| `JsValues.TypeOf` | src/dateSearch.ts:17 | `typeof` is `"string"` exactly for strings and `"object"` exactly for null, arrays and objects |
| `JsValues.ObjectKeysLength` | src/dateSearch.ts:29 | `Object.keys` throws exactly on null/undefined; otherwise the key count is never negative |
| `JsValues.IsEmpty` | src/dateSearch.ts:26 | lodash `isEmpty` holds exactly for null/undefined and for values in which `Object.keys` finds no key |
| `JsValues.Lookup` | src/dateSearch.ts:56-57 | a property read gives the first field with that key, or `undefined` when there is none |
| `JsValues.CastPath` | src/dateSearch.ts:56-57 | lodash path casting always yields at least one segment |
| `JsValues.Walk` | src/dateSearch.ts:56-57 | walking a non-empty path from null/undefined reads `undefined` |
| `JsValues.SplitDots` | src/dateSearch.ts:56-57 | splitting a path at dots yields at least one segment |
| `JsValues.SplitJoin` | src/dateSearch.ts:56-57 | joining the dot-split segments gives the path back |
| `JsValues.SplitSegmentsDotFree` | src/dateSearch.ts:56-57 | no split segment contains a dot |
| `JsValues.SplitCons` | src/dateSearch.ts:56-57 | `seg + "." + rest` splits into `seg` followed by the segments of `rest` |
| `JsValues.SplitDotFree` | src/dateSearch.ts:56-57 | a dot-free path is one segment |
| `JsValues.Get` | src/dateSearch.ts:56-57 | `get` with a dot-free path (such as the default `"value"`) reads that one field; on anything but an object it reads `undefined` for every path |
| `JsValues.WalkNest` | src/dateSearch.ts:56-57 | walking the segments that built a nested record reads back its leaf |
| `JsValues.GetTwoLevels` | src/dateSearch.ts:56-57 | `get(x, "a.b")` reads the leaf of `{a: {b: leaf}}`, and `undefined` from a value without field `a` |
| `Coercion.IndexOf` | src/dateSearch.ts:18 | `indexOf` is -1 exactly when the name is absent, and otherwise the position of its first occurrence |
| `Coercion.IsDateType` | src/dateSearch.ts:15-23 | true for every non-string, and for a string exactly when dayjs reads it, because `indexOf` is 0 only for `"string"` |
| `Coercion.ParseToValidNumber` | src/dateSearch.ts:25-38 | throws exactly on null/undefined; a non-empty value gives -1; a number gives itself; any other empty value (`false`/`true`, `""`, `[]`, `{}`) gives 0, because its text never parses |
| `Coercion.NumberFromText` | src/dateSearch.ts:32-36 | a number's text reads back as the number; the texts of booleans, null/undefined, empty strings and arrays, and objects never parse |
| `Coercion.DefaultTimeComparator` | src/dateSearch.ts:40-48 | throws exactly when a non-date string meets null/undefined; NaN exactly when both are date types and one is unreadable by dayjs; two readable date types give the difference of their dayjs instants; otherwise, with neither side nullish, the difference of their `parseToValidNumber` keys |
| `Coercion.DeepTimeComparator` | src/dateSearch.ts:50-59 | with a dot-free path it compares that field of both values; two non-objects compare as `undefined` with `undefined` |
| `Coercion.DeepTimeComparatorDefaults` | src/dateSearch.ts:50-59 | with the default arguments it compares the `value` fields of both sides with `defaultTimeComparator` |
| `Coercion.DefaultReflexive` | src/dateSearch.ts:40-48 | a value compares with itself as 0, or NaN when it is a date type dayjs cannot read |
| `Coercion.DefaultAntisymmetric` | src/dateSearch.ts:40-48 | swapping the arguments negates a finite result and keeps NaN |
| `Coercion.NonEmptyCoercesToMinusOne` | src/dateSearch.ts:25-48 | two non-empty values, one of them a string dayjs rejects, compare as equal (both coerce to -1) |
| `Coercion.DeepReadsOnlyThePath` | src/dateSearch.ts:50-59 | the deep comparator sees the target only through its field at the path |
| `Coercion.DeepOnNestedRecords` | src/dateSearch.ts:50-59 | records nested along `a.b` compare as their leaves |
| `DateSearch.At` | src/dateSearch.ts:115 | `array[i]` is present exactly for indices in range, and is then the element |
| `DateSearch.Loop` | src/dateSearch.ts:89-104 | a hit lies between `left` and `right` and compares as 0; a miss ends with `left` in `left .. right + 1` (so in `0 .. |a|`); `right - left` decreases |
| `DateSearch.ResolveMiss` | src/dateSearch.ts:106-130 | the index is null exactly for modes other than `"floor"`/`"ceil"`; a present index lies in `-1 .. |a|` with the entry there as value; `"floor"` gives `left`; `"ceil"` gives `left + 1` clamped to the last index |
| `DateSearch.SearchSpec` | src/dateSearch.ts:89-130 | a hit returns `{index: mid, value: array[mid]}`; a null index comes with a null value; a present index lies in `-1 .. |a|` and its value is the entry there (`undefined` outside) |
| `DateSearch.Search` | src/dateSearch.ts:67-131 | the loop and switch compute exactly `SearchSpec`, under the invariant `0 <= left <= right + 1 <= |a|` |
| `DateSearch.LoopOnSorted` | src/dateSearch.ts:89-104 | on sorted input everything left of `left` is earlier than the target and everything right of `right` later, so the loop never throws and a miss ends at the split point |
| `DateSearch.SortedSearch` | src/dateSearch.ts:89-111 | on sorted input the search never raises, and a miss means no element compares equal |
| `DateSearch.SortedMatchIsHit` | src/dateSearch.ts:89-104 | on sorted input with an equal element, the loop ends in a hit |
| `DateSearch.SearchOnHit` | src/dateSearch.ts:93-98 | a hit returns `{index: mid, value: array[mid]}` in every mode, with a zero comparison |
| `DateSearch.FindsMatchThroughAgreement` | src/dateSearch.ts:89-104 | completeness carries over to an array whose comparisons agree position by position with a sorted one |
| `DateSearch.ExactHitInEveryMode` | src/dateSearch.ts:93-98 | an index reported by `"exact"` holds an element comparing as 0, and every mode returns that same result |
| `DateSearch.UnknownModeIsExact` | src/dateSearch.ts:106-111 | a mode other than `"floor"`/`"ceil"` behaves as `"exact"` |
| `DateSearch.FindsMatchWhenSorted` | src/dateSearch.ts:89-104 | on sorted input with an equal element, every mode returns an index whose element compares equal |
| `DateSearch.ExactMissIffNoMatch` | src/dateSearch.ts:106-111 | on sorted input, `"exact"` returns nulls exactly when no element compares equal |
| `DateSearch.FloorOnMiss` | src/dateSearch.ts:112-116 | a sorted `"floor"` miss returns the split point in `0 .. |a|` (earlier elements before it, later ones from it on); the value is `undefined` exactly at `|a|` |
| `DateSearch.CeilOnMiss` | src/dateSearch.ts:117-124 | a `"ceil"` miss returns the `"floor"` index plus one, clamped to the last index; never beyond it; -1 with `undefined` on the empty array |
| `DateSearch.AllNaNEndsPastTheEnd` | src/dateSearch.ts:99-103 | a comparator that answers NaN everywhere drives `left` to `|a|` |
| `DateSearch.LoopFailsOnlyOnThrow` | src/dateSearch.ts:89-104 | the loop fails only with an error the comparator threw on some element in the searched range |
| `DateSearch.RaisesOnlyWhatComparatorThrew` | src/dateSearch.ts:89-104 | a raised search carries the error the comparator threw when comparing the target with some element |
| `DateSearch.LoopCongruent` | src/dateSearch.ts:89-104 | two arrays whose comparisons agree position by position end the loop the same way |
| `Dispatch.ComparisonFn` | src/dateSearch.ts:73-87 | a string path compares `get(target, p)` with `get(array[mid], p)` by the default comparator; a function is called as `f(target, array[mid])`; a falsy non-string (`null`, `false`, `0`) uses the default comparator |
| `Dispatch.DateSearchValues` | src/dateSearch.ts:67-131 | `dateSearch` on JavaScript values is the engine run with the dispatched comparator |
| `Dispatch.FalsyIsDefaultFunction` | src/dateSearch.ts:70 | a `null` comparator searches exactly as the default argument `defaultTimeComparator` does |
| `Dispatch.PathSearchIsFieldSearch` | src/dateSearch.ts:75-83 | searching records by a path ends at the same index as searching their fields with the target's own field; a found record holds the found field |
| `Dispatch.NestedRecordsCompareByLeaf` | src/dateSearch.ts:75-83 | with path `a.b`, records and a target nested as `{a: {b: leaf}}` compare as their leaves |
| `Dispatch.DefaultOnReadableDates` | src/dateSearch.ts:41-45 | two date types that dayjs reads compare as the difference of their instants |
| `Dispatch.TimeOrderedIsSorted` | src/dateSearch.ts:40-48 | when the target and every element are date types dayjs reads and the instants never decrease, the array is sorted for the default comparator |
| `Dispatch.DefaultSearchOnTimeOrdered` | src/dateSearch.ts:67-131 | on such a time-ordered array, with an element at the target's instant, every mode returns an element at that instant; `"exact"` returns nulls exactly when no element has it |
| `Findings.FloorCeilAsWritten` | src/dateSearch.ts:112-124 | on `[10, 20, 30]`: target 15 gives 20 for `"floor"` and 30 for `"ceil"`; target 40 gives index 3 with an `undefined` value for `"floor"`; target 5 gives index 1 for `"ceil"` |
| `Findings.NearestIsFloorAndCeil` | src/dateSearch.ts:112-124 | corrected modes: `"floor"` returns the last element earlier than the target, or the first element when there is none; `"ceil"` returns the first element later than the target, or the last when there is none |
| `Findings.IsDateTypeAsWritten` | src/dateSearch.ts:16-23 | `{}` counts as a date type, so the default comparator compares it with any number as NaN; the corrected check rejects it |
| `Findings.IsDateTypeIncludes` | src/dateSearch.ts:15-23 | corrected: true exactly for strings, numbers, and values dayjs reads |
| `Findings.ParseToValidNumberAsWritten` | src/dateSearch.ts:25-38 | a two-element array, a two-field object and `"42"` coerce to -1; the corrected coercion gives 2 for the array and the object |
| `Findings.ParseToValidNumberNeverParses` | src/dateSearch.ts:25-38 | as written, the result never depends on the text parser: it is -1, 0, or the number itself |
| `Findings.ParseToValidNumberCounted` | src/dateSearch.ts:25-38 | corrected: arrays give their length, objects their key count, numbers themselves, non-empty strings their parsed text or 0, and booleans, null/undefined and `""` give 0; it never throws |
| `Findings.DeepTargetPathAsWritten` | src/dateSearch.ts:50-59 | with path `a.b`, any two targets without field `a` give the same search outcome |
| `Findings.BareTargetFindsRecord` | src/dateSearch.ts:50-59 | corrected (path read from the candidate only): when the fields at the path are sorted for a bare target and one equals it, every mode returns a record whose field equals it |

## Left out

- `console.log(mid)` (src/dateSearch.ts:74) is output only and is not modelled.
- dayjs parsing, `isValid()` and `.unix()` are a foreign library. They are the `unix` parameter of `Foreign`. Validity is "the instant is a number". `dayjs(undefined)` reads the clock, so it is just another value of that parameter.
- `parseFloat` of the text of a non-empty string or array and `Number.isFinite` are the `parseText` parameter (`None` for NaN or ±Infinity). Every other text is fixed by `NumberFromText`: a number's own text reads back as that number, and the texts of booleans, null/undefined, `""`, `[]` and objects never parse.
- Numbers are integers. Fractional values, `-0` and NaN as an input value are not modelled, and neither is NaN inside `parseToValidNumber`.
- lodash `get` is modelled for dotted paths over plain objects, including the rule that an own key equal to the whole path wins. Not modelled: bracket paths (`a[0]`), array indices, string properties, and inherited properties.
- Native `Date` objects, functions, symbols and bigints are not value shapes of the model. dayjs instances are plain objects.
- A truthy comparator that is neither a string nor a function throws a TypeError when called. `ComparatorSpec` has no case for it. A comparator returning something other than a number is also not modelled.
- `dateSearchBetween`, `DateSearchModes` and `DateSearchTargets` are imported by src/main.ts:3,11-12 and src/dateSearch.test.ts:4-6 but are not defined in src/dateSearch.ts. There is no range query to model.
- The source raises no usage error for an empty target, so none is modelled.
- src/binarySearchBy.test.ts expects a bare value or `null` as the result, which does not match the `{index, value}` that `dateSearch` returns. It is not encoded as a property.
- The floor/ceil tests at src/dateSearch.test.ts:150-167 depend on dayjs reading malformed strings, so they are not encoded as properties.
- src/generateData.ts, scripts/prepMd.js, vite.config.js and the re-exports in src/main.ts are not part of this model.

## Findings

| source | as written | input that shows it | evidently intended | confidence | as-written member | corrected member |
|---|---|---|---|---|---|---|
| src/dateSearch.ts:112-116 | `"floor"` returns the insertion point `left`, which is the first element later than the target, unclamped | `[10, 20, 30]` with target 15 gives index 1 (20); target 40 gives index 3 with `undefined` | the last element not later than the target (index 0 and 2 here), clamped into the array (tests at src/dateSearch.test.ts:150-158 expect element 5 for a target just after element 5) | medium, not executed | `Findings.FloorCeilAsWritten` | `Findings.ResolveNearest`, proved by `Findings.NearestIsFloorAndCeil` |
| src/dateSearch.ts:117-124 | `"ceil"` returns `left + 1`, one past the first element later than the target | `[10, 20, 30]` with target 15 gives index 2 (30); target 5 gives index 1 (20) | the first element not earlier than the target (index 1 and 0 here; tests at src/dateSearch.test.ts:159-167 expect element 6 for a target just after element 5) | medium, not executed | `Findings.FloorCeilAsWritten` | `Findings.ResolveNearest`, proved by `Findings.NearestIsFloorAndCeil` |
| src/dateSearch.ts:18 | the result of `indexOf` is used as a truth value, so every type except `"string"` counts as a date type, and -1 ("not listed") counts as true | `{}`, which dayjs cannot read, is a date type, and compares with any number as NaN | `indexOf(..) !== -1`: strings, numbers and values dayjs reads | medium, not executed | `Findings.IsDateTypeAsWritten` | `Findings.IsDateTypeIncludes` |
| src/dateSearch.ts:26-32 | `isArrayOrObject` is `isEmpty(x)`, so a length or key count is only taken of empty values, and every non-empty value coerces to -1 | `[v, v]` and `{a: v, b: v}` give -1; so does `"42"`; no text is ever parsed (`Findings.ParseToValidNumberNeverParses`) | arrays and objects give their length or key count (2 here), other values their parsed text | medium, not executed | `Findings.ParseToValidNumberAsWritten` | `Findings.ParseToValidNumberCounted` |
| src/dateSearch.ts:56 | `deepTimeComparator` reads the path from the target too, so a bare date target is read as `undefined` | records `{child: {date}}` searched with path `"child.date"` and a bare dayjs or number target, as src/dateSearch.test.ts:64-74 does: every such target gives the same outcome | read the path from the candidate only and compare it with the bare target | medium, not executed | `Findings.DeepTargetPathAsWritten` | `Findings.BareTargetComparator`, proved by `Findings.BareTargetFindsRecord` |

`DateSearch.Search` and `Dispatch.DateSearchValues` keep the behaviour as written. The corrected
definitions are separate members, and each has its intended property proved.
