/**
 * The JavaScript values the search works on, with the few host and lodash
 * operations that the coercion layer applies to them: `typeof`,
 * `Array.isArray`, `Object.keys(..).length`, lodash `isEmpty` and lodash `get`
 * with a dotted path.
 *
 * Numbers are kept as integers: only the sign of a comparison and the
 * difference of two keys are ever observed.
 */
module JsValues {
  import opened Wrappers

  /** An own enumerable property of a plain object. */
  datatype Field = Field(key: string, val: Value)

  /** Undefined, null, booleans, numbers, strings, arrays and plain objects (dayjs instances included). */
  datatype Value =
    | Undefined
    | Null
    | Bool(b: bool)
    | Num(n: int)
    | Str(s: string)
    | Arr(elems: seq<Value>)
    | Obj(fields: seq<Field>)

  /** What a JavaScript comparator hands back: a number, NaN, or a thrown error. */
  datatype Comparison = Finite(n: int) | NaN | Threw(error: string)

  /** `typeof x`. */
  function TypeOf(x: Value): (t: string)
    ensures t == "string" <==> x.Str?
    ensures t == "object" <==> (x.Null? || x.Arr? || x.Obj?)
  {
    match x
    case Undefined => "undefined"
    case Null => "object"
    case Bool(_) => "boolean"
    case Num(_) => "number"
    case Str(_) => "string"
    case Arr(_) => "object"
    case Obj(_) => "object"
  }

  /** True of `undefined` and `null`, the two values `Object.keys` rejects. */
  predicate IsNullish(x: Value) {
    x.Undefined? || x.Null?
  }

  /**
   * lodash `isEmpty`: nullish values and primitives without own keys are
   * empty; strings and arrays are empty when their length is 0, plain
   * objects when they have no own enumerable key. So a value is empty
   * exactly when it is nullish or `Object.keys` finds no key in it.
   */
  predicate IsEmpty(x: Value)
    ensures IsEmpty(x) <==> IsNullish(x) || ObjectKeysLength(x) == Ok(0)
  {
    match x
    case Undefined => true
    case Null => true
    case Bool(_) => true
    case Num(_) => true
    case Str(s) => |s| == 0
    case Arr(e) => |e| == 0
    case Obj(f) => |f| == 0
  }

  /**
   * `Object.keys(x).length`: throws a TypeError on `null` and `undefined`;
   * a string has one key per character, an array one per element.
   */
  function ObjectKeysLength(x: Value): (r: Result<int>)
    ensures r.Err? <==> IsNullish(x)
    ensures r.Ok? ==> r.value >= 0
  {
    match x
    case Undefined => Err("TypeError")
    case Null => Err("TypeError")
    case Bool(_) => Ok(0)
    case Num(_) => Ok(0)
    case Str(s) => Ok(|s|)
    case Arr(e) => Ok(|e|)
    case Obj(f) => Ok(|f|)
  }

  /** The value of the first field named `key`, or `undefined`. */
  function Lookup(fields: seq<Field>, key: string): (v: Value)
    ensures (forall i :: 0 <= i < |fields| ==> fields[i].key != key) ==> v == Undefined
    ensures forall i :: (0 <= i < |fields| && fields[i].key == key &&
                         (forall j :: 0 <= j < i ==> fields[j].key != key)) ==> v == fields[i].val
  {
    if |fields| == 0 then Undefined
    else if fields[0].key == key then fields[0].val
    else Lookup(fields[1..], key)
  }

  /** Whether an object has an own field named `key`. */
  predicate HasKey(x: Value, key: string) {
    x.Obj? && exists i :: 0 <= i < |x.fields| && x.fields[i].key == key
  }

  /** `x[key]` for one path segment: only plain objects have readable fields here. */
  function Property(x: Value, key: string): Value {
    if x.Obj? then Lookup(x.fields, key) else Undefined
  }

  /** The segments of a path, split at every `.` (so `"a..b"` has an empty middle segment). */
  function SplitDots(s: string): (parts: seq<string>)
    ensures |parts| >= 1
  {
    if |s| == 0 then [""]
    else
      var rest := SplitDots(s[1..]);
      if s[0] == '.' then [""] + rest
      else [[s[0]] + rest[0]] + rest[1..]
  }

  /** The inverse of `SplitDots`: the segments joined back with dots. */
  function JoinDots(parts: seq<string>): string
    requires |parts| >= 1
  {
    if |parts| == 1 then parts[0] else parts[0] + "." + JoinDots(parts[1..])
  }

  /**
   * lodash `castPath` on a string: a path without a dot, or one the object
   * holds as a key of its own, is a single segment; otherwise it is split at
   * the dots.
   */
  function CastPath(x: Value, path: string): (parts: seq<string>)
    ensures |parts| >= 1
  {
    if '.' !in path || HasKey(x, path) then [path] else SplitDots(path)
  }

  /**
   * lodash `baseGet`: follow the segments while the current value is not
   * nullish; stopping early reads `undefined`. Running out of segments ends
   * the recursion with the value reached (`CastPath` never yields an empty
   * path).
   */
  function Walk(x: Value, parts: seq<string>): (v: Value)
    ensures |parts| >= 1 && !x.Obj? ==> v == Undefined
    ensures |parts| == 1 ==> v == Property(x, parts[0])
    decreases |parts|
  {
    if |parts| == 0 then x
    else if IsNullish(x) then Undefined
    else Walk(Property(x, parts[0]), parts[1..])
  }

  /**
   * lodash `get(x, path)` for a string path: a dot-free path (such as
   * `"value"`) reads that one field, and anything but a plain object reads
   * `undefined` whatever the path.
   */
  function Get(x: Value, path: string): (v: Value)
    ensures '.' !in path ==> v == Property(x, path)
    ensures !x.Obj? ==> v == Undefined
  {
    Walk(x, CastPath(x, path))
  }

  /** Splitting a path and joining its segments gives the path back. */
  lemma {:induction false} SplitJoin(s: string)
    ensures JoinDots(SplitDots(s)) == s
  {
    if |s| > 0 {
      SplitJoin(s[1..]);
      var rest := SplitDots(s[1..]);
      if s[0] != '.' {
        if |rest| == 1 {
        } else {
          calc {
            JoinDots(SplitDots(s));
            ([s[0]] + rest[0]) + "." + JoinDots(rest[1..]);
            [s[0]] + (rest[0] + "." + JoinDots(rest[1..]));
            [s[0]] + JoinDots(rest);
            s;
          }
        }
      }
    }
  }

  /** No segment produced by `SplitDots` contains a dot. */
  lemma {:induction false} SplitSegmentsDotFree(s: string)
    ensures forall i :: 0 <= i < |SplitDots(s)| ==> '.' !in SplitDots(s)[i]
  {
    if |s| > 0 {
      SplitSegmentsDotFree(s[1..]);
    }
  }

  /** A dot-free path prefixed by a dot-free segment splits into that segment and the rest. */
  lemma {:induction false} SplitCons(seg: string, rest: string)
    requires '.' !in seg
    ensures SplitDots(seg + "." + rest) == [seg] + SplitDots(rest)
  {
    if |seg| == 0 {
      assert seg + "." + rest == ['.'] + rest;
      assert (['.'] + rest)[1..] == rest;
    } else {
      assert (seg + "." + rest)[1..] == seg[1..] + "." + rest;
      SplitCons(seg[1..], rest);
      assert [seg[0]] + seg[1..] == seg;
    }
  }

  /** A path without a dot is a single segment. */
  lemma {:induction false} SplitDotFree(s: string)
    requires '.' !in s
    ensures SplitDots(s) == [s]
  {
    if |s| > 0 {
      SplitDotFree(s[1..]);
      assert [s[0]] + s[1..] == s;
    }
  }

  /** A record nested along `segs`, holding `leaf` at the innermost level. */
  function Nest(segs: seq<string>, leaf: Value): Value
    decreases |segs|
  {
    if |segs| == 0 then leaf else Obj([Field(segs[0], Nest(segs[1..], leaf))])
  }

  /**
   * Walking the segments that built a nested record reads back its leaf:
   * `get({child: {date: d}}, ["child", "date"]) == d`.
   */
  lemma {:induction false} WalkNest(segs: seq<string>, leaf: Value)
    ensures Walk(Nest(segs, leaf), segs) == leaf
    decreases |segs|
  {
    if |segs| > 0 {
      assert Property(Nest(segs, leaf), segs[0]) == Nest(segs[1..], leaf);
      WalkNest(segs[1..], leaf);
    }
  }

  /**
   * lodash `get` with the dotted path `a.b` reads the leaf of `{a: {b: leaf}}`,
   * and reads `undefined` from a value that has no field `a`.
   */
  lemma GetTwoLevels(a: string, b: string, leaf: Value, other: Value)
    requires '.' !in a && '.' !in b
    requires !HasKey(other, a) && !HasKey(other, a + "." + b)
    ensures Get(Nest([a, b], leaf), a + "." + b) == leaf
    ensures Get(other, a + "." + b) == Undefined
  {
    var path := a + "." + b;
    SplitCons(a, b);
    SplitDotFree(b);
    assert '.' in path by { assert path[|a|] == '.'; }
    assert |path| != |a|;
    assert !HasKey(Nest([a, b], leaf), path);
    assert CastPath(Nest([a, b], leaf), path) == [a, b];
    WalkNest([a, b], leaf);
    assert CastPath(other, path) == [a, b];
    if !IsNullish(other) {
      assert Property(other, a) == Undefined by {
        if other.Obj? {
          assert forall i :: 0 <= i < |other.fields| ==> other.fields[i].key != a;
        }
      }
    }
  }
}
