/** Small shared definitions: an optional value, the range of a C++ `int`,
    truncating division by two, and the minimum and maximum of a sequence. */
module Basics {

  datatype Option<T> = None | Some(value: T)

  /** `std::numeric_limits<int>::max()` and `min()` for a 32-bit `int`. */
  const IntMax: int := 0x7FFF_FFFF
  const IntMin: int := -0x8000_0000

  predicate IsInt32(v: int) { IntMin <= v <= IntMax }

  /** C++ `a / 2`: the quotient is truncated toward zero (Dafny's `/` is
      Euclidean, which differs for negative odd `a`). */
  function Half(a: int): (q: int)
    ensures a >= 0 ==> 0 <= 2 * q <= a && a - 2 * q <= 1
    ensures a < 0 ==> a <= 2 * q <= 0 && 2 * q - a <= 1
  {
    if a >= 0 then a / 2 else -((-a) / 2)
  }

  /** Smallest element, folded from the front as a loop over the sequence would. */
  function MinOf(s: seq<int>): (m: int)
    requires |s| > 0
    ensures forall i :: 0 <= i < |s| ==> m <= s[i]
    ensures exists i :: 0 <= i < |s| && m == s[i]
  {
    if |s| == 1 then s[0]
    else
      var m' := MinOf(s[..|s| - 1]);
      if s[|s| - 1] < m' then s[|s| - 1] else m'
  }

  /** Largest element, folded from the front. */
  function MaxOf(s: seq<int>): (m: int)
    requires |s| > 0
    ensures forall i :: 0 <= i < |s| ==> s[i] <= m
    ensures exists i :: 0 <= i < |s| && m == s[i]
  {
    if |s| == 1 then s[0]
    else
      var m' := MaxOf(s[..|s| - 1]);
      if s[|s| - 1] > m' then s[|s| - 1] else m'
  }
}
