/**
 * The index rules of JavaScript's `Array.prototype.slice` and
 * `String.prototype.slice`, which both helpers in utils.ts rely on.
 * A negative index counts from the end; every index is then clamped
 * into [0, length]. Dafny has no negative zero, so `-0` is just 0.
 */
module JsSlice {

  /** Where a relative slice index lands in a sequence of length `len`. */
  function RelativeIndex(k: int, len: nat): (r: nat)
    ensures r <= len
    ensures 0 <= k <= len ==> r == k
    ensures len < k ==> r == len
    ensures -(len as int) <= k < 0 ==> r == len + k
    ensures k < -(len as int) ==> r == 0
  {
    if k < 0 then (if len + k < 0 then 0 else len + k)
    else if k < len then k
    else len
  }

  /** `s.slice(start, end)` */
  function Slice<T>(s: seq<T>, start: int, end: int): (r: seq<T>)
    ensures 0 <= start <= end <= |s| ==> r == s[start..end]
    ensures |r| <= |s|
  {
    var a := RelativeIndex(start, |s|);
    var b := RelativeIndex(end, |s|);
    if a < b then s[a..b] else []
  }

  /** `s.slice(start)` */
  function SliceFrom<T>(s: seq<T>, start: int): (r: seq<T>)
    ensures 0 <= start <= |s| ==> r == s[start..]
    ensures -|s| <= start < 0 ==> r == s[|s| + start..]
    ensures |s| < start ==> r == []
    ensures start < -|s| ==> r == s
  {
    s[RelativeIndex(start, |s|)..]
  }
}
