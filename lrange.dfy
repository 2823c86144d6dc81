/**
 * The Redis LRANGE command on a list value: `LRANGE key start end` returns the
 * elements from index `start` to index `end`, both inclusive. A negative index
 * counts back from the tail (-1 is the last element); indices beyond either end
 * are clamped, and a window that ends up empty yields the empty list.
 */
module ListRange {

  /** The position a (possibly negative) LRANGE index designates in a list of length `len`. */
  function Resolve(len: nat, index: int): int
  {
    if index < 0 then len + index else index
  }

  /** Position `k` of a list of length `len` lies inside the window `[start, end]`. */
  predicate Selected(len: nat, start: int, end: int, k: int)
  {
    0 <= k < len && Resolve(len, start) <= k <= Resolve(len, end)
  }

  /** The first position the window can begin at once `start` is resolved and clamped. */
  function FirstPosition(len: nat, start: int): nat
  {
    if Resolve(len, start) < 0 then 0 else Resolve(len, start)
  }

  /**
   * LRANGE as the server computes it: resolve both indices, clamp `start` to 0,
   * answer empty when `start` passes `end` or the list, otherwise clamp `end` to
   * the last element and take the slice.
   *
   * The result lists, in stored order, exactly the positions the window selects.
   */
  function LRange<T>(list: seq<T>, start: int, end: int): (r: seq<T>)
    ensures |r| <= |list|
    ensures forall j :: 0 <= j < |r| ==>
              FirstPosition(|list|, start) + j < |list| && r[j] == list[FirstPosition(|list|, start) + j]
    ensures forall k :: 0 <= k < |list| ==>
              (Selected(|list|, start, end, k) <==>
               FirstPosition(|list|, start) <= k < FirstPosition(|list|, start) + |r|)
  {
    var len := |list|;
    var s0 := if start < 0 then len + start else start;
    var e0 := if end < 0 then len + end else end;
    var s := if s0 < 0 then 0 else s0;
    assert s == FirstPosition(len, start);
    if s > e0 || s >= len then []
    else
      var e := if e0 >= len then len - 1 else e0;
      list[s..e + 1]
  }
}
