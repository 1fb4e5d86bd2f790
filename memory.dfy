/** Bytes, the newline delimiter and the heap blocks that grow by doubling. */
module Memory {

  type byte = bv8

  /** The record delimiter, '\n'. */
  const NEWLINE: byte := 10

  /** The number of newline bytes in s. */
  ghost function NewlineCount(s: seq<byte>): nat
  {
    if s == [] then 0
    else NewlineCount(s[..|s| - 1]) + if s[|s| - 1] == NEWLINE then 1 else 0
  }

  /** `cap` is `base` doubled some number of times: base * 2^k for some k. */
  ghost predicate Doubled(base: nat, cap: nat)
    requires base > 0
    decreases cap
  {
    cap == base || (cap > base && cap % 2 == 0 && Doubled(base, cap / 2))
  }

  /** Doubling a doubled capacity keeps its shape. */
  lemma DoubledTwice(base: nat, cap: nat)
    requires base > 0 && Doubled(base, cap)
    ensures Doubled(base, 2 * cap) && 2 * cap >= base
  {
    assert (2 * cap) / 2 == cap;
  }

  /**
   * realloc that succeeds: a new block of `newCap` elements whose first
   * a.Length elements are a copy of the old block.
   */
  method Realloc<T(0)>(a: array<T>, newCap: nat) returns (b: array<T>)
    requires a.Length <= newCap
    ensures fresh(b) && b.Length == newCap
    ensures b[..a.Length] == a[..]
  {
    b := new T[newCap];
    forall k | 0 <= k < a.Length {
      b[k] := a[k];
    }
  }
}
