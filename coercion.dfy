/**
 * The coercion and comparator helpers of the date search: `isDateType`,
 * `parseToValidNumber`, `defaultTimeComparator` and `deepTimeComparator`.
 *
 * The two foreign numeric services are parameters: dayjs (`dayjs(x).unix()`,
 * whose `isValid()` is whether that instant is a number) and
 * `parseFloat(String(x))` (absent when the result is NaN or infinite).
 */
module Coercion {
  import opened Wrappers
  import opened JsValues

  /** The foreign services the helpers call. */
  datatype Foreign = Foreign(
    /** `dayjs(x).unix()`; `None` when dayjs cannot read `x` (the instant is NaN) */
    unix: Value -> Option<int>,
    /** `parseFloat(String(x))`; `None` when the number is not finite */
    parseText: Value -> Option<int>)

  /** `dayjs(x).isValid()`. */
  predicate DayjsValid(ffi: Foreign, x: Value) {
    ffi.unix(x).Some?
  }

  /** The `typeof` names the source lists as date types. */
  const DATE_TYPES: seq<string> := ["string", "number", "Date"]

  /** `xs.indexOf(s)`: the first position of `s`, or -1. */
  function IndexOf(xs: seq<string>, s: string): (r: int)
    ensures -1 <= r < |xs|
    ensures r == -1 <==> s !in xs
    ensures r >= 0 ==> xs[r] == s && forall j :: 0 <= j < r ==> xs[j] != s
  {
    if |xs| == 0 then -1
    else if xs[0] == s then 0
    else
      var k := IndexOf(xs[1..], s);
      if k == -1 then -1 else k + 1
  }

  /**
   * `isDateType(x)`: the index that `indexOf` returns is used as a truth
   * value, so only a type found at position 0 (`"string"`) falls through to
   * dayjs; every other type, listed or not, is a date type.
   */
  function IsDateType(ffi: Foreign, x: Value): (r: bool)
    ensures r <==> !x.Str? || DayjsValid(ffi, x)
  {
    if IndexOf(DATE_TYPES, TypeOf(x)) != 0 then true
    else DayjsValid(ffi, x)
  }

  /**
   * `parseFloat(String(x))`, kept only when finite. A number's own text reads
   * back as that number. The texts `"undefined"`, `"null"`, `"true"`,
   * `"false"`, `""` (an empty string or array) and `"[object Object]"` start
   * with no digit, so they never parse; only a non-empty string or array
   * goes to the foreign parser.
   */
  function NumberFromText(ffi: Foreign, x: Value): (r: Option<int>)
    ensures x.Num? ==> r == Some(x.n)
    ensures IsEmpty(x) && !x.Num? ==> r == None
    ensures x.Obj? ==> r == None
  {
    match x
    case Num(n) => Some(n)
    case Str(s) => if |s| == 0 then None else ffi.parseText(x)
    case Arr(e) => if |e| == 0 then None else ffi.parseText(x)
    case _ => None
  }

  /**
   * `parseToValidNumber(x)`. `l` starts at -1 and is replaced by the array
   * length or key count only when `isEmpty(x)` holds (where `Object.keys`
   * throws on nullish values); `l || x` is then printed and parsed, and a
   * non-finite parse becomes 0.
   */
  function ParseToValidNumber(ffi: Foreign, x: Value): (r: Result<int>)
    ensures r.Err? <==> IsNullish(x)
    ensures !IsEmpty(x) ==> r == Ok(-1)
    ensures x.Num? ==> r == Ok(x.n)
    ensures IsEmpty(x) && !IsNullish(x) && !x.Num? ==> r == Ok(0)
  {
    var isArrayOrObject := IsEmpty(x);
    var len: Result<int> :=
      if isArrayOrObject then (if x.Arr? then Ok(|x.elems|) else ObjectKeysLength(x))
      else Ok(-1);
    match len
    case Err(e) => Err(e)
    case Ok(l) =>
      var lengthOrString := if l != 0 then Num(l) else x;
      var n := NumberFromText(ffi, lengthOrString);
      Ok(if n.Some? then n.value else 0)
  }

  /**
   * `defaultTimeComparator(a, b)`: the difference of the dayjs instants when
   * both are date types (NaN if either is unreadable), otherwise the
   * difference of the two coerced numbers, `a` coerced first.
   */
  function DefaultTimeComparator(ffi: Foreign, a: Value, b: Value): (r: Comparison)
    ensures r.Threw? <==> (!IsDateType(ffi, a) || !IsDateType(ffi, b)) && (IsNullish(a) || IsNullish(b))
    ensures r.NaN? <==> IsDateType(ffi, a) && IsDateType(ffi, b) && !(DayjsValid(ffi, a) && DayjsValid(ffi, b))
    ensures IsDateType(ffi, a) && IsDateType(ffi, b) && DayjsValid(ffi, a) && DayjsValid(ffi, b) ==>
              r == Finite(ffi.unix(a).value - ffi.unix(b).value)
    ensures !(IsDateType(ffi, a) && IsDateType(ffi, b)) && !IsNullish(a) && !IsNullish(b) ==>
              r == Finite(ParseToValidNumber(ffi, a).value - ParseToValidNumber(ffi, b).value)
  {
    if IsDateType(ffi, a) && IsDateType(ffi, b) then
      match (ffi.unix(a), ffi.unix(b))
      case (Some(ka), Some(kb)) => Finite(ka - kb)
      case _ => NaN
    else
      match ParseToValidNumber(ffi, a)
      case Err(e) => Threw(e)
      case Ok(ka) =>
        match ParseToValidNumber(ffi, b)
        case Err(e) => Threw(e)
        case Ok(kb) => Finite(ka - kb)
  }

  /** The default path of `deepTimeComparator`. */
  const DEFAULT_PATH: string := "value"

  /** `deepTimeComparator(target, search, stringPath, comparator)`: the same path is read from both sides. */
  function DeepTimeComparator(target: Value, search: Value, path: string,
                              comparator: (Value, Value) -> Comparison): (r: Comparison)
    ensures '.' !in path ==> r == comparator(Property(target, path), Property(search, path))
    ensures !target.Obj? && !search.Obj? ==> r == comparator(Undefined, Undefined)
  {
    comparator(Get(target, path), Get(search, path))
  }

  /**
   * `deepTimeComparator(target, search)` with both defaults: the `value`
   * fields of the two values, compared by `defaultTimeComparator`.
   */
  function DeepTimeComparatorDefaults(ffi: Foreign, target: Value, search: Value): (r: Comparison)
    ensures r == DefaultTimeComparator(ffi, Property(target, "value"), Property(search, "value"))
  {
    DeepTimeComparator(target, search, DEFAULT_PATH, (a, b) => DefaultTimeComparator(ffi, a, b))
  }

  /**
   * The default comparator compares a value with itself as 0, unless dayjs
   * treats it as a date it cannot read, in which case the difference is NaN.
   * Coercing never throws here: a nullish value is always a date type.
   */
  lemma DefaultReflexive(ffi: Foreign, a: Value)
    ensures DefaultTimeComparator(ffi, a, a) ==
              if IsDateType(ffi, a) && !DayjsValid(ffi, a) then NaN else Finite(0)
  {
  }

  /**
   * Swapping the arguments negates a finite result and keeps NaN, so the
   * default comparator is antisymmetric.
   */
  lemma DefaultAntisymmetric(ffi: Foreign, a: Value, b: Value)
    ensures DefaultTimeComparator(ffi, a, b).Finite? <==> DefaultTimeComparator(ffi, b, a).Finite?
    ensures DefaultTimeComparator(ffi, a, b).Finite? ==>
              DefaultTimeComparator(ffi, b, a).n == -DefaultTimeComparator(ffi, a, b).n
    ensures DefaultTimeComparator(ffi, a, b).NaN? <==> DefaultTimeComparator(ffi, b, a).NaN?
  {
  }

  /** A non-empty string, array or object that is not a readable date coerces to -1. */
  lemma NonEmptyCoercesToMinusOne(ffi: Foreign, a: Value, b: Value)
    requires !IsEmpty(a) && !IsEmpty(b)
    requires !IsDateType(ffi, a)
    ensures DefaultTimeComparator(ffi, a, b) == Finite(0)
  {
  }

  /** The deep comparator sees the target only through the field at the path. */
  lemma DeepReadsOnlyThePath(t1: Value, t2: Value, search: Value, path: string,
                             comparator: (Value, Value) -> Comparison)
    requires Get(t1, path) == Get(t2, path)
    ensures DeepTimeComparator(t1, search, path, comparator) == DeepTimeComparator(t2, search, path, comparator)
  {
  }

  /**
   * Records nested along a dotted path compare as their leaves:
   * `deepTimeComparator({a: {b: x}}, {a: {b: y}}, "a.b", c) == c(x, y)`.
   */
  lemma DeepOnNestedRecords(a: string, b: string, x: Value, y: Value,
                            comparator: (Value, Value) -> Comparison)
    requires '.' !in a && '.' !in b
    ensures DeepTimeComparator(Nest([a, b], x), Nest([a, b], y), a + "." + b, comparator) == comparator(x, y)
  {
    GetTwoLevels(a, b, x, Undefined);
    GetTwoLevels(a, b, y, Undefined);
  }
}
