/**
 * The search engine of `dateSearch`: a binary search whose comparisons come
 * from a comparator `cmp(target, a[mid])`, followed by a switch on the
 * search mode that decides what a miss returns.
 *
 * `Search` is the loop as the source runs it; `Loop`, `ResolveMiss` and
 * `SearchSpec` say what it computes, and the lemmas below say what that
 * means on input sorted for the comparator.
 */
module DateSearch {
  import opened Wrappers
  import opened JsValues

  /** The values of `DATE_SEARCH_MODES`. */
  const EXACT: string := "exact"
  const CLOSEST_FLOOR: string := "floor"
  const CLOSEST_CEIL: string := "ceil"

  /** `{index, value}`; `None` is `null`, or `undefined` for an index outside the array. */
  datatype SearchResult<T> = SearchResult(index: Option<int>, value: Option<T>)

  /** A call of `dateSearch` returns a result or lets the comparator's exception escape. */
  datatype Outcome<T> = Returned(result: SearchResult<T>) | Raised(error: string)

  /** How the loop ends: a probe compared as 0, `left` passed `right`, or a comparator threw. */
  datatype LoopEnd = Hit(mid: int) | Miss(left: int) | Failed(error: string)

  /** `a[i]`: `undefined` outside `0 .. |a| - 1`. */
  function At<T>(a: seq<T>, i: int): (v: Option<T>)
    ensures v.Some? <==> 0 <= i < |a|
    ensures v.Some? ==> v.value == a[i]
  {
    if 0 <= i < |a| then Some(a[i]) else None
  }

  /**
   * The loop from the state `left, right`: probe the middle, stop on 0, move
   * `right` below it on a negative result, and move `left` above it on a
   * positive result or NaN (NaN is neither `=== 0` nor `< 0`).
   */
  function Loop<T>(a: seq<T>, target: T, cmp: (T, T) -> Comparison, left: int, right: int): (e: LoopEnd)
    requires 0 <= left <= right + 1 <= |a|
    ensures e.Hit? ==> left <= e.mid <= right && cmp(target, a[e.mid]) == Finite(0)
    ensures e.Miss? ==> left <= e.left <= right + 1
    decreases right - left
  {
    if left > right then Miss(left)
    else
      var mid := (left + right) / 2;
      match cmp(target, a[mid])
      case Threw(err) => Failed(err)
      case NaN => Loop(a, target, cmp, mid + 1, right)
      case Finite(n) =>
        if n == 0 then Hit(mid)
        else if n < 0 then Loop(a, target, cmp, left, mid - 1)
        else Loop(a, target, cmp, mid + 1, right)
  }

  /**
   * The mode switch after a miss that ended with `left`: `"exact"` and every
   * unknown mode give nulls, `"floor"` gives `left` itself, and `"ceil"` gives
   * `left + 1` when that is still an index, else the last index.
   */
  function ResolveMiss<T>(mode: string, a: seq<T>, left: int): (r: SearchResult<T>)
    requires 0 <= left <= |a|
    ensures r.index.None? <==> mode != CLOSEST_FLOOR && mode != CLOSEST_CEIL
    ensures r.index.None? ==> r.value.None?
    ensures r.index.Some? ==> r.value == At(a, r.index.value) && -1 <= r.index.value <= |a|
    ensures mode == CLOSEST_FLOOR ==> r.index == Some(left)
    ensures mode == CLOSEST_CEIL ==> r.index == Some(if left + 1 < |a| then left + 1 else |a| - 1)
  {
    if mode == EXACT then SearchResult(None, None)
    else if mode == CLOSEST_FLOOR then SearchResult(Some(left), At(a, left))
    else if mode == CLOSEST_CEIL then
      var next := left + 1;
      var last := |a| - 1;
      var ceil := if next <= |a| - 1 then next else last;
      SearchResult(Some(ceil), At(a, ceil))
    else SearchResult(None, None)
  }

  /**
   * What `dateSearch(array, target, cmp, mode)` returns. A null index comes
   * with a null value; a present index lies in `-1 .. |a|` and comes with the
   * array entry there (`undefined` outside the array).
   */
  function SearchSpec<T>(a: seq<T>, target: T, cmp: (T, T) -> Comparison, mode: string): (o: Outcome<T>)
    ensures o.Returned? && o.result.index.None? ==> o.result.value.None?
    ensures o.Returned? && o.result.index.Some? ==>
              -1 <= o.result.index.value <= |a| && o.result.value == At(a, o.result.index.value)
  {
    match Loop(a, target, cmp, 0, |a| - 1)
    case Hit(mid) => Returned(SearchResult(Some(mid), Some(a[mid])))
    case Miss(left) => Returned(ResolveMiss(mode, a, left))
    case Failed(err) => Raised(err)
  }

  /** `dateSearch`: the binary-search loop over `left`/`right` and the mode switch. */
  method Search<T>(a: seq<T>, target: T, cmp: (T, T) -> Comparison, mode: string) returns (o: Outcome<T>)
    ensures o == SearchSpec(a, target, cmp, mode)
  {
    var left := 0;
    var right := |a| - 1;
    while left <= right
      invariant 0 <= left <= right + 1 <= |a|
      invariant Loop(a, target, cmp, left, right) == Loop(a, target, cmp, 0, |a| - 1)
      decreases right - left
    {
      var mid := (left + right) / 2;
      var comparison := cmp(target, a[mid]);
      match comparison {
        case Threw(err) =>
          return Raised(err);
        case NaN =>
          left := mid + 1;
        case Finite(n) =>
          if n == 0 {
            return Returned(SearchResult(Some(mid), Some(a[mid])));
          } else if n < 0 {
            right := mid - 1;
          } else {
            left := mid + 1;
          }
      }
    }
    if mode == EXACT {
      o := Returned(SearchResult(None, None));
    } else if mode == CLOSEST_FLOOR {
      o := Returned(SearchResult(Some(left), At(a, left)));
    } else if mode == CLOSEST_CEIL {
      var next := left + 1;
      var last := |a| - 1;
      var ceil := if next <= |a| - 1 then next else last;
      o := Returned(SearchResult(Some(ceil), At(a, ceil)));
    } else {
      o := Returned(SearchResult(None, None));
    }
  }

  /**
   * The array is sorted for this target: every comparison with the target is
   * a number, and those numbers never increase along the array (a later
   * element is never earlier than the target by more than an earlier one).
   */
  predicate SortedFor<T>(a: seq<T>, target: T, cmp: (T, T) -> Comparison) {
    (forall i :: 0 <= i < |a| ==> cmp(target, a[i]).Finite?) &&
    (forall i, j :: 0 <= i < j < |a| ==> cmp(target, a[i]).n >= cmp(target, a[j]).n)
  }

  /** No element compares equal to the target. */
  predicate NoMatch<T>(a: seq<T>, target: T, cmp: (T, T) -> Comparison) {
    forall i :: 0 <= i < |a| ==> cmp(target, a[i]) != Finite(0)
  }

  /**
   * `l` splits the array at the target: the target is later than every
   * element before `l` (positive comparison) and earlier than every element
   * from `l` on (negative comparison).
   */
  predicate SplitsAt<T>(a: seq<T>, target: T, cmp: (T, T) -> Comparison, l: int)
    requires SortedFor(a, target, cmp)
  {
    0 <= l <= |a| &&
    (forall i :: 0 <= i < l ==> cmp(target, a[i]).n > 0) &&
    (forall i :: l <= i < |a| ==> cmp(target, a[i]).n < 0)
  }

  /**
   * On sorted input the loop keeps everything left of `left` positive and
   * everything right of `right` negative, so a miss ends exactly at the
   * split point, and it never throws.
   */
  lemma {:induction false} LoopOnSorted<T>(a: seq<T>, target: T, cmp: (T, T) -> Comparison, left: int, right: int)
    requires 0 <= left <= right + 1 <= |a|
    requires SortedFor(a, target, cmp)
    requires forall i :: 0 <= i < left ==> cmp(target, a[i]).n > 0
    requires forall i :: right < i < |a| ==> cmp(target, a[i]).n < 0
    ensures !Loop(a, target, cmp, left, right).Failed?
    ensures Loop(a, target, cmp, left, right).Miss? ==> SplitsAt(a, target, cmp, Loop(a, target, cmp, left, right).left)
    decreases right - left
  {
    if left <= right {
      var mid := (left + right) / 2;
      assert cmp(target, a[mid]).Finite?;
      var n := cmp(target, a[mid]).n;
      if n < 0 {
        forall i | mid - 1 < i < |a| ensures cmp(target, a[i]).n < 0 {
          if i > mid { assert cmp(target, a[mid]).n >= cmp(target, a[i]).n; }
        }
        LoopOnSorted(a, target, cmp, left, mid - 1);
      } else if n > 0 {
        forall i | 0 <= i < mid + 1 ensures cmp(target, a[i]).n > 0 {
          if i < mid { assert cmp(target, a[i]).n >= cmp(target, a[mid]).n; }
        }
        LoopOnSorted(a, target, cmp, mid + 1, right);
      }
    }
  }

  /** On sorted input the search never raises, and a miss means nothing compares equal. */
  lemma SortedSearch<T>(a: seq<T>, target: T, cmp: (T, T) -> Comparison)
    requires SortedFor(a, target, cmp)
    ensures !Loop(a, target, cmp, 0, |a| - 1).Failed?
    ensures Loop(a, target, cmp, 0, |a| - 1).Miss? ==>
              NoMatch(a, target, cmp) && SplitsAt(a, target, cmp, Loop(a, target, cmp, 0, |a| - 1).left)
  {
    LoopOnSorted(a, target, cmp, 0, |a| - 1);
  }

  /** On sorted input with an element equal to the target, the loop ends in a hit. */
  lemma SortedMatchIsHit<T>(a: seq<T>, target: T, cmp: (T, T) -> Comparison, i: int)
    requires SortedFor(a, target, cmp)
    requires 0 <= i < |a| && cmp(target, a[i]) == Finite(0)
    ensures Loop(a, target, cmp, 0, |a| - 1).Hit?
  {
    SortedSearch(a, target, cmp);
  }

  /** A loop that ends in a hit makes the search return that element in every mode. */
  lemma SearchOnHit<T>(a: seq<T>, target: T, cmp: (T, T) -> Comparison, mode: string, m: int)
    requires Loop(a, target, cmp, 0, |a| - 1) == Hit(m)
    ensures 0 <= m < |a| && cmp(target, a[m]) == Finite(0)
    ensures SearchSpec(a, target, cmp, mode) == Returned(SearchResult(Some(m), Some(a[m])))
  {
  }

  /**
   * Completeness carries over to any array whose comparisons agree position
   * by position with those of an array sorted for its target.
   */
  lemma FindsMatchThroughAgreement<T, U>(a: seq<T>, t: T, cmp: (T, T) -> Comparison,
                                         b: seq<U>, u: U, cmp': (U, U) -> Comparison, mode: string, i: int)
    requires |a| == |b|
    requires forall j :: 0 <= j < |a| ==> cmp(t, a[j]) == cmp'(u, b[j])
    requires SortedFor(b, u, cmp')
    requires 0 <= i < |b| && cmp'(u, b[i]) == Finite(0)
    ensures SearchSpec(a, t, cmp, mode).Returned?
    ensures var r := SearchSpec(a, t, cmp, mode).result;
            r.index.Some? && 0 <= r.index.value < |a| &&
            r.value == Some(a[r.index.value]) && cmp(t, a[r.index.value]) == Finite(0)
  {
    LoopCongruent(a, t, cmp, b, u, cmp', 0, |a| - 1);
    SortedMatchIsHit(b, u, cmp', i);
  }

  /** The loop fails only with an exception some comparison in its range threw. */
  lemma {:induction false} LoopFailsOnlyOnThrow<T>(a: seq<T>, target: T, cmp: (T, T) -> Comparison, left: int, right: int)
    requires 0 <= left <= right + 1 <= |a|
    ensures Loop(a, target, cmp, left, right).Failed? ==>
              exists i :: left <= i <= right && cmp(target, a[i]) == Threw(Loop(a, target, cmp, left, right).error)
    decreases right - left
  {
    if left <= right {
      var mid := (left + right) / 2;
      match cmp(target, a[mid]) {
        case Threw(_) =>
        case NaN =>
          LoopFailsOnlyOnThrow(a, target, cmp, mid + 1, right);
        case Finite(n) =>
          if n < 0 {
            LoopFailsOnlyOnThrow(a, target, cmp, left, mid - 1);
          } else if n > 0 {
            LoopFailsOnlyOnThrow(a, target, cmp, mid + 1, right);
          }
      }
    }
  }

  /** `dateSearch` raises only an exception that the comparator threw for some element. */
  lemma RaisesOnlyWhatComparatorThrew<T>(a: seq<T>, target: T, cmp: (T, T) -> Comparison, mode: string)
    ensures SearchSpec(a, target, cmp, mode).Raised? ==>
              exists i :: 0 <= i < |a| && cmp(target, a[i]) == Threw(SearchSpec(a, target, cmp, mode).error)
  {
    LoopFailsOnlyOnThrow(a, target, cmp, 0, |a| - 1);
  }

  /**
   * Exact hit: whenever the `"exact"` search reports an index, the element
   * there compares as 0 with the target, and every mode returns that same
   * result.
   */
  lemma ExactHitInEveryMode<T>(a: seq<T>, target: T, cmp: (T, T) -> Comparison, mode: string)
    requires SearchSpec(a, target, cmp, EXACT).Returned?
    requires SearchSpec(a, target, cmp, EXACT).result.index.Some?
    ensures var k := SearchSpec(a, target, cmp, EXACT).result.index.value;
            0 <= k < |a| && cmp(target, a[k]) == Finite(0) &&
            SearchSpec(a, target, cmp, EXACT).result.value == Some(a[k]) &&
            SearchSpec(a, target, cmp, mode) == SearchSpec(a, target, cmp, EXACT)
  {
  }

  /** An unknown mode behaves as `"exact"`. */
  lemma UnknownModeIsExact<T>(a: seq<T>, target: T, cmp: (T, T) -> Comparison, mode: string)
    requires mode != CLOSEST_FLOOR && mode != CLOSEST_CEIL
    ensures SearchSpec(a, target, cmp, mode) == SearchSpec(a, target, cmp, EXACT)
  {
  }

  /**
   * Completeness: on sorted input with an element equal to the target, every
   * mode returns an index whose element compares equal.
   */
  lemma FindsMatchWhenSorted<T>(a: seq<T>, target: T, cmp: (T, T) -> Comparison, mode: string, i: int)
    requires SortedFor(a, target, cmp)
    requires 0 <= i < |a| && cmp(target, a[i]) == Finite(0)
    ensures SearchSpec(a, target, cmp, mode).Returned?
    ensures var r := SearchSpec(a, target, cmp, mode).result;
            r.index.Some? && 0 <= r.index.value < |a| &&
            r.value == Some(a[r.index.value]) && cmp(target, a[r.index.value]) == Finite(0)
  {
    SortedMatchIsHit(a, target, cmp, i);
  }

  /**
   * On sorted input, `"exact"` (and any unknown mode) returns nulls exactly
   * when no element compares equal to the target.
   */
  lemma ExactMissIffNoMatch<T>(a: seq<T>, target: T, cmp: (T, T) -> Comparison, mode: string)
    requires SortedFor(a, target, cmp)
    requires mode != CLOSEST_FLOOR && mode != CLOSEST_CEIL
    ensures SearchSpec(a, target, cmp, mode) == Returned(SearchResult(None, None)) <==> NoMatch(a, target, cmp)
  {
    SortedSearch(a, target, cmp);
  }

  /**
   * `"floor"` miss on sorted input: the index is the split point `l` in
   * `0 .. |a|` (every element before it is earlier than the target, every
   * element from it on later), and the value is `undefined` exactly when
   * `l == |a|`, which includes the empty array.
   */
  lemma FloorOnMiss<T>(a: seq<T>, target: T, cmp: (T, T) -> Comparison)
    requires SortedFor(a, target, cmp)
    requires NoMatch(a, target, cmp)
    ensures SearchSpec(a, target, cmp, CLOSEST_FLOOR).Returned?
    ensures var r := SearchSpec(a, target, cmp, CLOSEST_FLOOR).result;
            r.index.Some? && SplitsAt(a, target, cmp, r.index.value) &&
            r.value == At(a, r.index.value) &&
            (r.value.None? <==> r.index.value == |a|)
  {
    SortedSearch(a, target, cmp);
  }

  /**
   * `"ceil"` after any miss: the index is one past the `"floor"` index,
   * clamped to the last index; it never exceeds the last index, and on the
   * empty array it is -1 with an `undefined` value.
   */
  lemma CeilOnMiss<T>(a: seq<T>, target: T, cmp: (T, T) -> Comparison)
    requires Loop(a, target, cmp, 0, |a| - 1).Miss?
    ensures SearchSpec(a, target, cmp, CLOSEST_CEIL).Returned? && SearchSpec(a, target, cmp, CLOSEST_FLOOR).Returned?
    ensures var c := SearchSpec(a, target, cmp, CLOSEST_CEIL).result;
            var f := SearchSpec(a, target, cmp, CLOSEST_FLOOR).result;
            c.index.Some? && f.index.Some? &&
            c.index.value == (if f.index.value + 1 <= |a| - 1 then f.index.value + 1 else |a| - 1) &&
            c.index.value <= |a| - 1 &&
            (|a| == 0 ==> c.index.value == -1 && c.value.None?) &&
            (|a| > 0 ==> 0 <= c.index.value && c.value == Some(a[c.index.value]))
  {
  }

  /** A comparator that answers NaN for every element drives `left` past the end. */
  lemma {:induction false} AllNaNEndsPastTheEnd<T>(a: seq<T>, target: T, cmp: (T, T) -> Comparison, left: int, right: int)
    requires 0 <= left <= right + 1 <= |a|
    requires right == |a| - 1
    requires forall i :: 0 <= i < |a| ==> cmp(target, a[i]) == NaN
    ensures Loop(a, target, cmp, left, right) == Miss(|a|)
    decreases right - left
  {
    if left <= right {
      AllNaNEndsPastTheEnd(a, target, cmp, (left + right) / 2 + 1, right);
    }
  }

  /**
   * The search depends on the elements only through their comparisons with
   * the target: two arrays of the same length whose comparisons agree
   * position by position end the loop the same way.
   */
  lemma {:induction false} LoopCongruent<T, U>(a: seq<T>, t: T, cmp: (T, T) -> Comparison,
                                               b: seq<U>, u: U, cmp': (U, U) -> Comparison,
                                               left: int, right: int)
    requires |a| == |b|
    requires 0 <= left <= right + 1 <= |a|
    requires forall i :: 0 <= i < |a| ==> cmp(t, a[i]) == cmp'(u, b[i])
    ensures Loop(a, t, cmp, left, right) == Loop(b, u, cmp', left, right)
    decreases right - left
  {
    if left <= right {
      var mid := (left + right) / 2;
      var c := cmp(t, a[mid]);
      assert c == cmp'(u, b[mid]);
      match c {
        case Threw(_) =>
        case NaN =>
          LoopCongruent(a, t, cmp, b, u, cmp', mid + 1, right);
        case Finite(n) =>
          if n < 0 {
            LoopCongruent(a, t, cmp, b, u, cmp', left, mid - 1);
          } else if n > 0 {
            LoopCongruent(a, t, cmp, b, u, cmp', mid + 1, right);
          }
      }
    }
  }
}
