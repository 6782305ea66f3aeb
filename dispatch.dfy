/**
 * `dateSearch` over JavaScript values: the `comparisonFn` closure that picks
 * the comparator for each probe from the `comparator` argument, and the
 * search it drives.
 */
module Dispatch {
  import opened Wrappers
  import opened JsValues
  import opened Coercion
  import opened DateSearch

  /**
   * The `comparator` argument: any string (the empty string included) is a
   * path, a function is a comparator, and `Falsy` is a falsy non-string
   * (`null`, `false`, `0`); an omitted argument takes the default function,
   * which compares the same way as a falsy one.
   */
  datatype ComparatorSpec = ByPath(path: string) | ByFunction(f: (Value, Value) -> Comparison) | Falsy

  /**
   * `comparisonFn` for one probe: a string goes to `deepTimeComparator` with
   * `defaultTimeComparator`, a function is called as `f(target, array[mid])`,
   * and a falsy non-string uses `defaultTimeComparator`.
   */
  function ComparisonFn(ffi: Foreign, spec: ComparatorSpec, target: Value, candidate: Value): (r: Comparison)
    ensures spec.ByPath? ==>
              r == DefaultTimeComparator(ffi, Get(target, spec.path), Get(candidate, spec.path))
    ensures spec.ByFunction? ==> r == spec.f(target, candidate)
    ensures spec.Falsy? ==> r == DefaultTimeComparator(ffi, target, candidate)
  {
    match spec
    case ByPath(keyPointer) =>
      DeepTimeComparator(target, candidate, keyPointer, (x, y) => DefaultTimeComparator(ffi, x, y))
    case ByFunction(f) => f(target, candidate)
    case Falsy => DefaultTimeComparator(ffi, target, candidate)
  }

  /** The comparator the search loop uses, as a function of target and candidate. */
  function Resolved(ffi: Foreign, spec: ComparatorSpec): (Value, Value) -> Comparison {
    (t, c) => ComparisonFn(ffi, spec, t, c)
  }

  /** `dateSearch(array, target, comparator, dateSearchMode)` on JavaScript values. */
  method DateSearchValues(ffi: Foreign, a: seq<Value>, target: Value, spec: ComparatorSpec, mode: string)
    returns (o: Outcome<Value>)
    ensures o == SearchSpec(a, target, Resolved(ffi, spec), mode)
  {
    o := Search(a, target, Resolved(ffi, spec), mode);
  }

  /** The field at `path` of every element. */
  function Keys(a: seq<Value>, path: string): (ks: seq<Value>)
    ensures |ks| == |a|
    ensures forall i :: 0 <= i < |a| ==> ks[i] == Get(a[i], path)
  {
    seq(|a|, i requires 0 <= i < |a| => Get(a[i], path))
  }

  /**
   * A `null` comparator and the default argument `defaultTimeComparator`
   * give the same search.
   */
  lemma FalsyIsDefaultFunction(ffi: Foreign, a: seq<Value>, target: Value, mode: string)
    ensures SearchSpec(a, target, Resolved(ffi, Falsy), mode) ==
            SearchSpec(a, target, Resolved(ffi, ByFunction((x, y) => DefaultTimeComparator(ffi, x, y))), mode)
  {
    LoopCongruent(a, target, Resolved(ffi, Falsy),
                  a, target, Resolved(ffi, ByFunction((x, y) => DefaultTimeComparator(ffi, x, y))),
                  0, |a| - 1);
  }

  /**
   * Searching records by a path is searching the fields at that path with
   * the default comparator, the target's own field at that path included:
   * both searches end at the same index, and a found value is the record
   * holding the found field.
   */
  lemma PathSearchIsFieldSearch(ffi: Foreign, a: seq<Value>, target: Value, path: string, mode: string)
    ensures var byPath := SearchSpec(a, target, Resolved(ffi, ByPath(path)), mode);
            var byField := SearchSpec(Keys(a, path), Get(target, path), Resolved(ffi, Falsy), mode);
            byPath.Returned? == byField.Returned? &&
            (byPath.Returned? ==>
               byPath.result.index == byField.result.index &&
               (byPath.result.value.Some? <==> byField.result.value.Some?) &&
               (byPath.result.value.Some? ==> byField.result.value.value == Get(byPath.result.value.value, path)))
  {
    var ks := Keys(a, path);
    LoopCongruent(a, target, Resolved(ffi, ByPath(path)), ks, Get(target, path), Resolved(ffi, Falsy), 0, |a| - 1);
  }

  /**
   * With a two-segment path `a.b`, records nested as `{a: {b: leaf}}` and a
   * target nested the same way compare exactly as their leaves do under the
   * default comparator.
   */
  lemma NestedRecordsCompareByLeaf(ffi: Foreign, seg1: string, seg2: string, t: Value, c: Value)
    requires '.' !in seg1 && '.' !in seg2
    ensures ComparisonFn(ffi, ByPath(seg1 + "." + seg2), Nest([seg1, seg2], t), Nest([seg1, seg2], c)) ==
            DefaultTimeComparator(ffi, t, c)
  {
    DeepOnNestedRecords(seg1, seg2, t, c, (x, y) => DefaultTimeComparator(ffi, x, y));
  }

  /** Every element is a date type dayjs reads, and the instants never decrease. */
  predicate TimeOrdered(ffi: Foreign, a: seq<Value>) {
    (forall i :: 0 <= i < |a| ==> IsDateType(ffi, a[i]) && DayjsValid(ffi, a[i])) &&
    (forall i, j :: 0 <= i < j < |a| ==> ffi.unix(a[i]).value <= ffi.unix(a[j]).value)
  }

  /** Two date types that dayjs reads compare by their instants under the default comparator. */
  lemma DefaultOnReadableDates(ffi: Foreign, t: Value, x: Value)
    requires IsDateType(ffi, t) && DayjsValid(ffi, t) && IsDateType(ffi, x) && DayjsValid(ffi, x)
    ensures Resolved(ffi, Falsy)(t, x) == Finite(ffi.unix(t).value - ffi.unix(x).value)
  {
  }

  /**
   * A time-ordered array is sorted for the default comparator: when the
   * target and every element are date types that dayjs reads, and the
   * elements' instants never decrease, the comparisons with the target
   * are numbers that never increase along the array.
   */
  lemma TimeOrderedIsSorted(ffi: Foreign, a: seq<Value>, target: Value)
    requires IsDateType(ffi, target) && DayjsValid(ffi, target)
    requires TimeOrdered(ffi, a)
    ensures SortedFor(a, target, Resolved(ffi, Falsy))
  {
    forall i, j | 0 <= i < j < |a|
      ensures Resolved(ffi, Falsy)(target, a[i]).n >= Resolved(ffi, Falsy)(target, a[j]).n
    {
    }
  }

  /**
   * With the default comparator on a time-ordered array, an element at the
   * target's instant is found in every mode, and `"exact"` returns nulls
   * exactly when no element has the target's instant.
   */
  lemma DefaultSearchOnTimeOrdered(ffi: Foreign, a: seq<Value>, target: Value, mode: string)
    requires IsDateType(ffi, target) && DayjsValid(ffi, target)
    requires TimeOrdered(ffi, a)
    ensures (exists i :: 0 <= i < |a| && ffi.unix(a[i]) == ffi.unix(target)) ==>
              var o := SearchSpec(a, target, Resolved(ffi, Falsy), mode);
              o.Returned? && o.result.index.Some? && 0 <= o.result.index.value < |a| &&
              ffi.unix(a[o.result.index.value]) == ffi.unix(target)
    ensures SearchSpec(a, target, Resolved(ffi, Falsy), EXACT) == Returned(SearchResult(None, None)) <==>
              forall i :: 0 <= i < |a| ==> ffi.unix(a[i]) != ffi.unix(target)
  {
    var cmp := Resolved(ffi, Falsy);
    TimeOrderedIsSorted(ffi, a, target);
    forall i | 0 <= i < |a|
      ensures cmp(target, a[i]) == Finite(0) <==> ffi.unix(a[i]) == ffi.unix(target)
    {
      DefaultOnReadableDates(ffi, target, a[i]);
    }
    if i :| 0 <= i < |a| && ffi.unix(a[i]) == ffi.unix(target) {
      FindsMatchWhenSorted(a, target, cmp, mode, i);
    }
    ExactMissIffNoMatch(a, target, cmp, EXACT);
  }
}
