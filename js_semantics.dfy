/**
 * The few pieces of JavaScript semantics the state machine relies on:
 * `undefined`, reading an array element (absent outside the array),
 * the truthiness of a string, and the array `Array.prototype.splice`
 * returns, as ECMA-262 defines it.
 */
module JsSemantics {

  /** A JavaScript value that may be `undefined` (None). */
  datatype Option<+T> = None | Some(value: T)

  /** `a[i]`: an element for every index inside the array, `undefined` for
      every other index, negative ones included (plain indexing never counts
      from the end). */
  function At<T>(a: seq<T>, i: int): (r: Option<T>)
    ensures r.Some? <==> 0 <= i < |a|
    ensures r.Some? ==> r.value == a[i]
  {
    if 0 <= i < |a| then Some(a[i]) else None
  }

  /** `if (s)` on a string: only the empty string is falsy. */
  predicate Truthy(s: string)
  {
    s != ""
  }

  /** The index `splice(start, ...)` starts removing at: a negative start
      counts back from the end, and either way it is clamped to `0 .. len`. */
  function ActualStart(len: nat, start: int): (k: nat)
    ensures k <= len
  {
    if start < 0 then (if len + start < 0 then 0 else len + start)
    else if start < len then start
    else len
  }

  /** How many elements `splice(start, deleteCount)` removes once it starts
      at `k`: `deleteCount` clamped to what is left of the array. */
  function ActualDeleteCount(len: nat, k: nat, deleteCount: int): (n: nat)
    requires k <= len
    ensures k + n <= len
  {
    if deleteCount < 0 then 0
    else if deleteCount < len - k then deleteCount
    else len - k
  }

  /** The array `a.splice(start, deleteCount)` RETURNS: the run of elements
      it removes, which begins at the clamped start and is as long as the
      clamped delete count; a delete count of at least the whole length
      removes the entire suffix from the start on. */
  function SpliceRemoved<T>(a: seq<T>, start: int, deleteCount: int): (r: seq<T>)
    ensures |r| == ActualDeleteCount(|a|, ActualStart(|a|, start), deleteCount)
    ensures forall j :: 0 <= j < |r| ==> r[j] == a[ActualStart(|a|, start) + j]
    ensures deleteCount >= |a| ==> r == a[ActualStart(|a|, start)..]
  {
    var k := ActualStart(|a|, start);
    a[k .. k + ActualDeleteCount(|a|, k, deleteCount)]
  }
}
