/**
 * Four places where the code as written does not do what its names, its
 * comments and its own tests say it should. Each comes with a lemma that
 * exhibits the discrepancy on the modelled code and a corrected definition
 * with the intended property proved about it.
 */
module Findings {
  import opened Wrappers
  import opened JsValues
  import opened Coercion
  import opened DateSearch
  import opened Dispatch

  // ---------------------------------------------------------------------
  // "floor" and "ceil" resolve one position too far to the right.
  // ---------------------------------------------------------------------

  /** A comparator on plain numbers: the target minus the element. */
  function NumberCmp(x: int, y: int): Comparison {
    Finite(x - y)
  }

  /**
   * On `[10, 20, 30]` a target of 15 gets 20 from `"floor"` (later than the
   * target) and 30 from `"ceil"` (skipping 20); a target of 40 gets index 3
   * and an `undefined` value from `"floor"`; a target of 5 gets index 1 from
   * `"ceil"`, past the first element 10.
   */
  lemma FloorCeilAsWritten()
    ensures SearchSpec([10, 20, 30], 15, NumberCmp, CLOSEST_FLOOR) == Returned(SearchResult(Some(1), Some(20)))
    ensures SearchSpec([10, 20, 30], 15, NumberCmp, CLOSEST_CEIL) == Returned(SearchResult(Some(2), Some(30)))
    ensures SearchSpec([10, 20, 30], 40, NumberCmp, CLOSEST_FLOOR) == Returned(SearchResult(Some(3), None))
    ensures SearchSpec([10, 20, 30], 5, NumberCmp, CLOSEST_CEIL) == Returned(SearchResult(Some(1), Some(20)))
  {
    var a := [10, 20, 30];
    assert Loop(a, 15, NumberCmp, 0, 2) == Loop(a, 15, NumberCmp, 0, 0) == Loop(a, 15, NumberCmp, 1, 0) == Miss(1);
    assert Loop(a, 40, NumberCmp, 0, 2) == Loop(a, 40, NumberCmp, 2, 2) == Loop(a, 40, NumberCmp, 3, 2) == Miss(3);
    assert Loop(a, 5, NumberCmp, 0, 2) == Loop(a, 5, NumberCmp, 0, 0) == Loop(a, 5, NumberCmp, 0, -1) == Miss(0);
  }

  /**
   * The resolution the modes are named for: after a miss ending at `left`,
   * `"floor"` takes the element before `left` (the first element when the
   * target precedes them all) and `"ceil"` takes the element at `left` (the
   * last element when the target follows them all); an empty array has no
   * nearest element.
   */
  function ResolveNearest<T>(mode: string, a: seq<T>, left: int): SearchResult<T>
    requires 0 <= left <= |a|
  {
    if |a| == 0 || (mode != CLOSEST_FLOOR && mode != CLOSEST_CEIL) then SearchResult(None, None)
    else
      var k := if mode == CLOSEST_FLOOR then (if left == 0 then 0 else left - 1)
               else (if left < |a| then left else |a| - 1);
      SearchResult(Some(k), Some(a[k]))
  }

  /** The search with the intended resolution of a miss. */
  function NearestSearch<T>(a: seq<T>, target: T, cmp: (T, T) -> Comparison, mode: string): Outcome<T> {
    match Loop(a, target, cmp, 0, |a| - 1)
    case Hit(mid) => Returned(SearchResult(Some(mid), Some(a[mid])))
    case Miss(left) => Returned(ResolveNearest(mode, a, left))
    case Failed(err) => Raised(err)
  }

  /**
   * On sorted input with no equal element, the corrected `"floor"` returns the
   * last element earlier than the target, or the first element when there is
   * none; the corrected `"ceil"` returns the first element later than the
   * target, or the last element when there is none.
   */
  lemma NearestIsFloorAndCeil<T>(a: seq<T>, target: T, cmp: (T, T) -> Comparison)
    requires SortedFor(a, target, cmp) && NoMatch(a, target, cmp)
    requires |a| > 0
    ensures NearestSearch(a, target, cmp, CLOSEST_FLOOR).Returned?
    ensures NearestSearch(a, target, cmp, CLOSEST_CEIL).Returned?
    ensures var f := NearestSearch(a, target, cmp, CLOSEST_FLOOR).result;
            f.index.Some? && 0 <= f.index.value < |a| && f.value == Some(a[f.index.value]) &&
            (forall i :: f.index.value < i < |a| ==> cmp(target, a[i]).n < 0) &&
            (cmp(target, a[f.index.value]).n > 0 || (f.index.value == 0 && forall i :: 0 <= i < |a| ==> cmp(target, a[i]).n < 0))
    ensures var c := NearestSearch(a, target, cmp, CLOSEST_CEIL).result;
            c.index.Some? && 0 <= c.index.value < |a| && c.value == Some(a[c.index.value]) &&
            (forall i :: 0 <= i < c.index.value ==> cmp(target, a[i]).n > 0) &&
            (cmp(target, a[c.index.value]).n < 0 || (c.index.value == |a| - 1 && forall i :: 0 <= i < |a| ==> cmp(target, a[i]).n > 0))
  {
    SortedSearch(a, target, cmp);
  }

  // ---------------------------------------------------------------------
  // isDateType treats the result of indexOf as a truth value.
  // ---------------------------------------------------------------------

  /**
   * A plain object `{}` (which dayjs cannot read) counts as a date type, so
   * the default comparator compares it by a NaN instant with any number.
   */
  lemma IsDateTypeAsWritten(ffi: Foreign, n: int)
    requires ffi.unix(Obj([])) == None
    ensures IsDateType(ffi, Obj([]))
    ensures DefaultTimeComparator(ffi, Obj([]), Num(n)) == NaN
    ensures !IsDateTypeIncludes(ffi, Obj([]))
  {
  }

  /** `isDateType` with `DATE_TYPES.indexOf(typeof x) !== -1`. */
  function IsDateTypeIncludes(ffi: Foreign, x: Value): (r: bool)
    ensures r <==> x.Str? || x.Num? || DayjsValid(ffi, x)
  {
    assert TypeOf(x) == "number" <==> x.Num?;
    if IndexOf(DATE_TYPES, TypeOf(x)) != -1 then true
    else DayjsValid(ffi, x)
  }

  // ---------------------------------------------------------------------
  // parseToValidNumber counts only values that are already empty.
  // ---------------------------------------------------------------------

  /**
   * `isArrayOrObject` is `isEmpty(x)`, so the array length and key count
   * are only ever taken of empty values (always 0); a two-element array and
   * a two-field object coerce to -1, as does a numeric string.
   */
  lemma ParseToValidNumberAsWritten(ffi: Foreign, v: Value)
    ensures ParseToValidNumber(ffi, Arr([v, v])) == Ok(-1)
    ensures ParseToValidNumber(ffi, Obj([Field("a", v), Field("b", v)])) == Ok(-1)
    ensures ParseToValidNumber(ffi, Str("42")) == Ok(-1)
    ensures ParseToValidNumberCounted(ffi, Arr([v, v])) == 2
    ensures ParseToValidNumberCounted(ffi, Obj([Field("a", v), Field("b", v)])) == 2
  {
  }

  /**
   * As written, the parsed text never decides the result: a non-empty value
   * coerces to -1 before any text is read, and the empty values that do
   * reach `parseFloat` have texts that never parse. So two parsers, however
   * different, give the same coercion.
   */
  lemma ParseToValidNumberNeverParses(ffi: Foreign, other: Foreign, x: Value)
    ensures ParseToValidNumber(ffi, x) == ParseToValidNumber(other, x)
    ensures ParseToValidNumber(ffi, x).Ok? ==>
              ParseToValidNumber(ffi, x).value in {-1, 0} || x.Num?
  {
  }

  /**
   * Coercion as its names describe it: an array or object gives its element
   * or key count, a number itself, a string its parsed text, and anything
   * whose text does not parse 0.
   * It never throws.
   */
  function ParseToValidNumberCounted(ffi: Foreign, x: Value): (r: int)
    ensures x.Arr? ==> r == |x.elems|
    ensures x.Obj? ==> r == |x.fields|
    ensures x.Num? ==> r == x.n
    ensures x.Str? && |x.s| > 0 ==> r == (if ffi.parseText(x).Some? then ffi.parseText(x).value else 0)
    ensures x.Bool? || IsNullish(x) || x == Str("") ==> r == 0
  {
    var l := if x.Arr? then |x.elems| else if x.Obj? then |x.fields| else -1;
    if l > 0 then l
    else if l == 0 then 0
    else
      var n := NumberFromText(ffi, x);
      if n.Some? then n.value else 0
  }

  // ---------------------------------------------------------------------
  // deepTimeComparator reads the path from the target as well.
  // ---------------------------------------------------------------------

  /**
   * With the path `"a.b"`, any two targets without a field `a` (a bare date
   * such as a dayjs instance or a number, as the tests pass) are read as
   * `undefined`, so the search gives the same outcome for both: it cannot
   * tell such targets apart.
   */
  lemma DeepTargetPathAsWritten(ffi: Foreign, recs: seq<Value>, t1: Value, t2: Value,
                                a: string, b: string, mode: string)
    requires '.' !in a && '.' !in b
    requires !HasKey(t1, a) && !HasKey(t1, a + "." + b)
    requires !HasKey(t2, a) && !HasKey(t2, a + "." + b)
    ensures SearchSpec(recs, t1, Resolved(ffi, ByPath(a + "." + b)), mode) ==
            SearchSpec(recs, t2, Resolved(ffi, ByPath(a + "." + b)), mode)
  {
    GetTwoLevels(a, b, Undefined, t1);
    GetTwoLevels(a, b, Undefined, t2);
    LoopCongruent(recs, t1, Resolved(ffi, ByPath(a + "." + b)),
                  recs, t2, Resolved(ffi, ByPath(a + "." + b)), 0, |recs| - 1);
  }

  /** `deepTimeComparator` reading the path from the candidate only. */
  function DeepTimeComparatorBareTarget(target: Value, search: Value, path: string,
                                        comparator: (Value, Value) -> Comparison): Comparison
  {
    comparator(target, Get(search, path))
  }

  /** The per-probe comparator with the corrected path handling, for a field comparator `c`. */
  function BareTargetComparator(path: string, c: (Value, Value) -> Comparison): (Value, Value) -> Comparison {
    (t, x) => DeepTimeComparatorBareTarget(t, x, path, c)
  }

  /**
   * With the corrected comparator, a bare target is compared with each
   * record's field at the path: when those fields are sorted for the target
   * and one equals it, every mode returns a record whose field equals it.
   */
  lemma BareTargetFindsRecord(recs: seq<Value>, target: Value, path: string,
                              c: (Value, Value) -> Comparison, mode: string, i: int)
    requires SortedFor(Keys(recs, path), target, c)
    requires 0 <= i < |recs| && c(target, Get(recs[i], path)) == Finite(0)
    ensures SearchSpec(recs, target, BareTargetComparator(path, c), mode).Returned?
    ensures var r := SearchSpec(recs, target, BareTargetComparator(path, c), mode).result;
            r.index.Some? && 0 <= r.index.value < |recs| && r.value == Some(recs[r.index.value]) &&
            c(target, Get(recs[r.index.value], path)) == Finite(0)
  {
    var ks := Keys(recs, path);
    var cmp := BareTargetComparator(path, c);
    forall j | 0 <= j < |recs| ensures cmp(target, recs[j]) == c(target, ks[j]) {
    }
    FindsMatchThroughAgreement(recs, target, cmp, ks, target, c, mode, i);
  }
}
