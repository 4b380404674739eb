/** Machine words of the S1C33209 and of the C++ types that model them. */
module Words {
  const TWO16 := 0x1_0000
  const TWO31 := 0x8000_0000
  const TWO32 := 0x1_0000_0000
  const TWO63 := 0x8000_0000_0000_0000
  const TWO64 := 0x1_0000_0000_0000_0000

  type uint8 = x: int | 0 <= x < 0x100
  type uint16 = x: int | 0 <= x < 0x1_0000
  type uint32 = x: int | 0 <= x < 0x1_0000_0000
  type uint64 = x: int | 0 <= x < 0x1_0000_0000_0000_0000

  /** Conversion to `uint32_t`: the residue modulo 2^32, also for negative values. */
  function Wrap32(x: int): uint32 { x % TWO32 }

  lemma WrapWord(x: uint32)
    ensures Wrap32(x) == x
  {
  }

  function Wrap64(x: int): uint64 { x % TWO64 }

  /** Two's-complement reading of a word, as `static_cast<int32_t>`. */
  function Signed32(x: uint32): int {
    if x < TWO31 then x else x - TWO32
  }

  /** Two's-complement reading of a halfword, as `static_cast<int16_t>`. */
  function Signed16(x: uint16): int {
    if x < 0x8000 then x else x - TWO16
  }

  /** Two's complement: the one value of the signed range that a word stands for. */
  lemma SignedMeans(x: uint32, h: uint16)
    ensures -TWO31 <= Signed32(x) < TWO31 && Wrap32(Signed32(x)) == x
    ensures -0x8000 <= Signed16(h) < 0x8000 && Signed16(h) % TWO16 == h
  {
  }

  /** Bit 31 of a word. */
  predicate Negative(x: uint32) { TWO31 <= x }

  datatype Option<+T> = None | Some(value: T)
}
