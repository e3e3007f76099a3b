/** JavaScript's `slice(start, end)` on arrays and strings: a negative bound counts
    from the end, both bounds are then clamped to the length, and an empty range
    (start at or past end) yields the empty sequence. */
module Slices {

  /** How `slice` turns one bound into a position of a sequence of length `n`. */
  function SliceBound(k: int, n: nat): (r: nat)
    ensures r <= n
    ensures 0 <= k <= n ==> r == k
    ensures k < 0 ==> r == if n + k < 0 then 0 else n + k
  {
    if k < 0 then (if n + k < 0 then 0 else n + k)
    else if k > n then n
    else k
  }

  function JsSlice<T>(s: seq<T>, start: int, end: int): seq<T>
  {
    var a, b := SliceBound(start, |s|), SliceBound(end, |s|);
    if a < b then s[a..b] else []
  }

  /** `slice(0, -1)` drops the last element, and leaves an empty sequence empty. */
  lemma DropLastSlice<T>(s: seq<T>)
    ensures |s| == 0 ==> JsSlice(s, 0, -1) == []
    ensures |s| > 0 ==> JsSlice(s, 0, -1) + [s[|s| - 1]] == s
  {
    if |s| > 0 {
      assert JsSlice(s, 0, -1) == s[..|s| - 1];
    }
  }

  /** With a start of -1 and an end of 3 on a sequence longer than 3 elements the
      normalised start lies at or past the end, so the slice is empty. */
  lemma SliceFromMinusOneIsEmpty<T>(s: seq<T>)
    requires |s| > 3
    ensures JsSlice(s, -1, 3) == []
  {
  }

  /** From index 4 on, `slice(i - 4, i)` is the ordinary window of the four
      elements before `i`. */
  lemma SliceWindow<T>(s: seq<T>, i: nat)
    requires 4 <= i <= |s|
    ensures JsSlice(s, i - 4, i) == s[i - 4..i]
  {
  }
}
