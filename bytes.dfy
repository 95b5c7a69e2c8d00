/** C's unsigned 8-, 16- and 32-bit integers as bounded integers, and the
    single-bit operations ecsim.c applies to them (`x |= 1 << k`,
    `x &= ~(1 << k)`, `x & (1 << k)`), written out arithmetically. */
module Bytes {

  /** uint8_t */
  type byte = x: int | 0 <= x < 256

  /** uint16_t */
  type u16 = x: int | 0 <= x < 0x1_0000

  /** uint32_t */
  type u32 = x: int | 0 <= x < 0x1_0000_0000

  /** 1 << k for a bit position of a byte. */
  function Pow2(k: nat): (r: nat)
    requires k < 8
  {
    [1, 2, 4, 8, 16, 32, 64, 128][k]
  }

  /** (x & (1 << k)) != 0 */
  predicate HasBit(x: byte, k: nat)
    requires k < 8
  {
    (x / Pow2(k)) % 2 == 1
  }

  /** x | (1 << k): bit k is set and every other bit is as in x. */
  function SetBit(x: byte, k: nat): (r: byte)
    requires k < 8
    ensures HasBit(r, k)
    ensures ClearBit(r, k) == ClearBit(x, k)
  {
    if HasBit(x, k) then x
    else
      SetClearBit(x, k);
      x + Pow2(k)
  }

  /** Adding 1 << k to a byte whose bit k is clear stays within a byte and
      sets exactly that bit. */
  lemma SetClearBit(x: byte, k: nat)
    requires k < 8 && !HasBit(x, k)
    ensures x + Pow2(k) < 256
    ensures (x + Pow2(k)) / Pow2(k) == x / Pow2(k) + 1
  {
    if k == 0 {
    } else if k == 1 {
    } else if k == 2 {
    } else if k == 3 {
    } else if k == 4 {
    } else if k == 5 {
    } else if k == 6 {
    } else {
    }
  }

  /** x & ~(1 << k): bit k is clear and every other bit is as in x. */
  function ClearBit(x: byte, k: nat): (r: byte)
    requires k < 8
    ensures !HasBit(r, k)
    ensures r == x || r + Pow2(k) == x
  {
    if HasBit(x, k) then
      ClearSetBit(x, k);
      x - Pow2(k)
    else x
  }

  /** Subtracting 1 << k from a byte whose bit k is set clears exactly that
      bit. */
  lemma ClearSetBit(x: byte, k: nat)
    requires k < 8 && HasBit(x, k)
    ensures x - Pow2(k) >= 0
    ensures (x - Pow2(k)) / Pow2(k) == x / Pow2(k) - 1
  {
    if k == 0 {
    } else if k == 1 {
    } else if k == 2 {
    } else if k == 3 {
    } else if k == 4 {
    } else if k == 5 {
    } else if k == 6 {
    } else {
    }
  }
}
