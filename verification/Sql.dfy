/** How SQLite compares what the target stores with what its statements name. */
module Sql {
  import opened Bytes

  const TWO31 := 0x8000_0000

  /** A 64-bit pattern bound with sqlite3_bind_int64, as SQLite's signed INTEGER. */
  function Signed(x: u64): int { if x < TWO63 then x else x - TWO64 }

  /** A 32-bit pattern bound with sqlite3_bind_int. */
  function Signed32(x: u32): int { if x < TWO31 then x else x - TWO32 }

  /** The stored value against an unsigned literal of the statement's text (%llu); from 2^63 on that is a REAL, which no
      INTEGER equals. */
  predicate Equals64(stored: u64, literal: u64) { Signed(stored) == literal }

  /** A value stored with sqlite3_bind_int against an unsigned literal (%u), or against the same number bound with
      sqlite3_bind_int64. */
  predicate Equals32(stored: u32, literal: u32) { Signed32(stored) == literal }

  lemma WhenEquals64(stored: u64, literal: u64)
    ensures Equals64(stored, literal) <==> stored == literal && literal < 0x8000_0000_0000_0000
  {
  }

  lemma WhenEquals32(stored: u32, literal: u32)
    ensures Equals32(stored, literal) <==> stored == literal && literal < 0x8000_0000
  {
  }

  /** A COUNT that sqlite3_column_int reads as 0: it keeps the low 32 bits. */
  predicate ReadsAsZero(count: nat) { Low32(count) == 0 }

  /** A count that is not 0 but reads so. */
  predicate Miscounted(count: nat) { count > 0 && ReadsAsZero(count) }

  lemma SmallCount(count: nat)
    requires count < TWO32
    ensures ReadsAsZero(count) <==> count == 0
  {
  }
}
