/**
 What every part of the kernel model uses: optional values, C strings, lists without
 repetition, and 32-bit arithmetic on unbounded numbers.
 */
module Basics {

  datatype Option<+T> = None | Some(value: T)

  /** A list without repetition. */
  ghost predicate Distinct<T>(s: seq<T>) {
    forall i, j :: 0 <= i < j < |s| ==> s[i] != s[j]
  }

  // ----- C strings -----

  const NUL := '\0'

  /** A value that a NUL-terminated buffer can hold. */
  predicate CString(s: string) {
    forall i :: 0 <= i < |s| ==> s[i] != NUL
  }

  /** The character a C string shows at index `i`, NUL from its end on. */
  function At(s: string, i: nat): char { if i < |s| then s[i] else NUL }

  // ----- Numbers -----

  function Max0(x: int): nat { if x > 0 then x else 0 }

  const U32_LIMIT := 0x1_0000_0000

  /** What 32 bits keep of a number. */
  function U32(x: int): (r: nat)
    ensures r < 0x1_0000_0000
  {
    x % 0x1_0000_0000
  }

  /** The same read as a signed number. */
  function S32(x: int): int { if U32(x) < 0x8000_0000 then U32(x) else U32(x) - U32_LIMIT }

  lemma WrapShift(x: int, k: int)
    ensures U32(x + U32_LIMIT * k) == U32(x)
  {}

  /** Wrapping a summand early makes no difference. */
  lemma WrapAdd(a: int, b: int)
    ensures U32(U32(a) + b) == U32(a + b)
  {
    assert a == U32(a) + U32_LIMIT * (a / U32_LIMIT);
    WrapShift(U32(a) + b, a / U32_LIMIT);
  }
}
