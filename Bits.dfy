/** Byte-level helpers of the LED panel: single-bit access and the
    row-select byte. A C# `byte` is a `bv8`; C# evaluates `<<`, `>>` and `~`
    on `int` and then truncates to a byte, so the helpers below spell out
    that truncation where it matters. */
module Bits {

  type byte = bv8

  /** `(byte)(1 << position)` in C#: the shift count is taken modulo 32
      (`position & 31`, which is Euclidean `% 32` for negative counts too)
      and only the low 8 bits of the `int` result are kept, so counts 8 to
      31 give 0. */
  function BitMask(position: int): byte
  {
    var c := position % 32;
    if c < 8 then (1 as byte) << c else 0
  }

  /** `BitRead`: whether bit `position` (0 is the least significant) is set. */
  predicate BitRead(data: byte, position: int)
  {
    data & BitMask(position) != 0
  }

  /** `BitWrite`: the byte with bit `position` set to `value` (through
      `|=` or `&= ~`). */
  function BitWrite(data: byte, position: int, value: bool): byte
  {
    if value then data | BitMask(position) else data & !BitMask(position)
  }

  /** Bit `q` of `d` for a bit-vector position inside the byte. Proofs about
      shifted bytes go through this form, because reasoning with an `int` shift
      count converted to a bit-vector is far more expensive for the solver;
      `BitReadHasBit` connects it to `BitRead`. */
  predicate HasBit(d: byte, q: bv8)
    requires q < 8
  {
    d & ((1 as byte) << q) != 0
  }

  /** Helper: for a position inside the byte, `BitRead` tests the single bit
      `1 << q`, without the modulo-32 step. */
  lemma BitReadInside(data: byte, q: int)
    requires 0 <= q < 8
    ensures BitRead(data, q) == (data & ((1 as byte) << q) != 0)
  {
    assert q % 32 == q;
  }

  /** `BitRead` at a bit-vector position is `HasBit`. */
  lemma BitReadHasBit(data: byte, q: bv8)
    requires q < 8
    ensures BitRead(data, q as int) == HasBit(data, q)
  {
    assert (q as int) % 32 == q as int;
  }

  /** The bit written is read back. */
  lemma BitWriteRead(data: byte, position: int, value: bool)
    requires 0 <= position % 32 < 8
    ensures BitRead(BitWrite(data, position, value), position) == value
  {
  }

  /** Every other bit keeps its value: a position whose count modulo 32 is
      8 or more changes no bit at all. */
  lemma BitWriteOther(data: byte, position: int, value: bool, q: int)
    requires 0 <= q < 8 && q != position % 32
    ensures BitRead(BitWrite(data, position, value), q) == BitRead(data, q)
  {
    BitReadInside(data, q);
    BitReadInside(BitWrite(data, position, value), q);
  }

  /** `BitWrite` at a position inside the byte: the written bit reads back
      as `value` and the other seven bits keep their values. */
  lemma BitWriteSpec(data: byte, position: int, value: bool)
    requires 0 <= position < 8
    ensures BitRead(BitWrite(data, position, value), position) == value
    ensures forall q :: 0 <= q < 8 && q != position ==> BitRead(BitWrite(data, position, value), q) == BitRead(data, q)
  {
    BitWriteRead(data, position, value);
    forall q | 0 <= q < 8 && q != position
      ensures BitRead(BitWrite(data, position, value), q) == BitRead(data, q)
    {
      BitWriteOther(data, position, value, q);
    }
  }

  /** Writing the same bit twice is the same as writing it once. */
  lemma BitWriteIdempotent(data: byte, position: int, value: bool)
    ensures BitWrite(BitWrite(data, position, value), position, value) == BitWrite(data, position, value)
  {
  }

  /** The row-select byte of row `r`, `(byte)(1 << 8 - 1 - r)`: `-` binds
      tighter than `<<`, so the count is `7 - r`. */
  function RowSelect(r: nat): byte
    requires r < 8
  {
    (1 as byte) << (7 - r)
  }

  /** A row-select byte is one-hot: exactly bit `7 - r` is set. */
  lemma RowSelectOneHot(r: nat, q: int)
    requires r < 8 && 0 <= q < 8
    ensures BitRead(RowSelect(r), q) <==> q == 7 - r
  {
    BitReadInside(RowSelect(r), q);
  }
}
