/** Shared vocabulary: optional values and arithmetic on 64-bit sequence numbers.

    lp::Sequence is an unsigned 64-bit integer.  Its wrap-around is written out
    case by case, so that no proof has to reason about the modulo operator. */
module Basics {

  datatype Option<+T> = None | Some(value: T)

  const TWO64: int := 0x1_0000_0000_0000_0000

  /** A value of lp::Sequence. */
  type Seq64 = x: int | 0 <= x < 0x1_0000_0000_0000_0000

  /** An octet. */
  type Byte = x: int | 0 <= x < 256

  /** `a + n` in 64-bit arithmetic. */
  function Plus(a: Seq64, n: int): (r: Seq64)
    requires 0 <= n < TWO64
  {
    if a + n < TWO64 then a + n else a + n - TWO64
  }

  /** `a - n` in 64-bit arithmetic. */
  function Minus(a: Seq64, n: int): (r: Seq64)
    requires 0 <= n < TWO64
  {
    if a - n >= 0 then a - n else a - n + TWO64
  }

  /** How many increments lead from `a` to `b`, going around zero if necessary. */
  function Dist(a: Seq64, b: Seq64): (d: Seq64) {
    if b >= a then b - a else b - a + TWO64
  }

  ghost predicate NoDup<T>(s: seq<T>) {
    forall i, j :: 0 <= i < j < |s| ==> s[i] != s[j]
  }

  function Elems<T>(s: seq<T>): set<T> {
    set x | x in s
  }
}
