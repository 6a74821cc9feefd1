/** The C integer types of a 32-bit x86 machine, as subranges of the integers. */
module CTypes {
  type byte = x: int | 0 <= x < 0x100
  type uint16 = x: int | 0 <= x < 0x1_0000
  type uint32 = x: int | 0 <= x < 0x1_0000_0000
  type uint64 = x: int | 0 <= x < 0x1_0000_0000_0000_0000

  /** An 8-bit character; strings are sequences of these that end in a NUL. */
  type cchar = c: char | c as int < 0x100 witness '\0'

  const NUL: cchar := '\0'

  predicate IsCString(s: seq<cchar>) {
    |s| > 0 && s[|s| - 1] == NUL && forall k :: 0 <= k < |s| - 1 ==> s[k] != NUL
  }

  const UINT_MAX: uint32 := 0xFFFF_FFFF
  const INT_MAX: int := 0x7FFF_FFFF
  const INT_MIN: int := -0x8000_0000

  function Min(a: int, b: int): int { if a < b then a else b }

  function Abs(n: int): nat { if n < 0 then -n else n }

  function Max(a: int, b: int): int { if a < b then b else a }
}
