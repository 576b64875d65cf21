/** The few pieces of JavaScript semantics the core leans on: optional values,
    thrown errors, `String.prototype.slice` with negative or out-of-range
    bounds, and the truthiness of an optional number. */
module Js {

  datatype Option<+T> = None | Some(value: T) {
    function GetOr(default: T): T {
      if Some? then value else default
    }
  }

  /** What a call may throw. */
  datatype JsError =
    | UnsupportedOperation(message: string)  // an `Error` thrown on purpose
    | TypeError                              // a member looked up on `undefined`

  /** A call that returns a value or throws. */
  datatype Result<+T> = Ok(value: T) | Throws(error: JsError)

  /** `n` is truthy: present and not zero (numbers here are integers, so NaN
      does not arise). */
  predicate Truthy(n: Option<int>) {
    n.Some? && n.value != 0
  }

  /** `n || 0` for an optional number. */
  function OrZero(n: Option<int>): int {
    if Truthy(n) then n.value else 0
  }

  function Min(a: int, b: int): int {
    if a <= b then a else b
  }

  /** The position a `slice` bound denotes in a sequence of length `len`: a
      negative bound counts back from the end, and the position is clamped to
      `[0, len]`. */
  function SliceBound(i: int, len: nat): (r: nat)
    ensures r <= len
  {
    if i < 0 then (if len + i < 0 then 0 else len + i)
    else if i > len then len
    else i
  }

  /** `s.slice(start, end)`, `end` absent standing for `undefined`. */
  function Slice<T>(s: seq<T>, start: int, end: Option<int>): (r: seq<T>)
    ensures |r| <= |s|
  {
    var from := SliceBound(start, |s|);
    var to := if end.None? then |s| else SliceBound(end.value, |s|);
    if from < to then s[from..to] else []
  }

  /** With non-negative bounds, `slice` is the clamped sub-sequence. */
  lemma SliceNonNegative<T>(s: seq<T>, start: int, end: Option<int>)
    requires 0 <= start
    requires end.Some? ==> start <= end.value
    ensures var to := if end.None? || end.value > |s| then |s| else end.value;
            var from := if start > |s| then |s| else start;
            Slice(s, start, end) == s[from..to]
  {
  }

  /** A slice from the start is a prefix. */
  lemma SliceFromStartIsPrefix<T>(s: seq<T>, end: Option<int>)
    ensures Slice(s, 0, end) <= s
  {
  }

  /** `s.slice(0, -1)` drops the last element, and `s.slice(-1)` is that
      element alone; on an empty sequence both give the empty sequence. */
  lemma SliceLast<T>(s: seq<T>)
    ensures Slice(s, 0, Some(-1)) == if s == [] then [] else s[..|s| - 1]
    ensures Slice(s, -1, None) == if s == [] then [] else [s[|s| - 1]]
  {
  }
}
