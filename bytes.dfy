/** Machine integers of the driver: bytes of the serial line, 16-bit register
    words, powers of two and the little-endian word read of BitConverter.ToUInt16
    (on the little-endian hosts the driver runs on). */
module Bytes {

  newtype byte = x: int | 0 <= x < 0x100

  newtype u16 = x: int | 0 <= x < 0x1_0000

  function Pow2(k: nat): (r: nat)
    ensures r >= 1
  {
    if k == 0 then 1 else 2 * Pow2(k - 1)
  }

  lemma {:induction false} Pow2Add(a: nat, b: nat)
    ensures Pow2(a + b) == Pow2(a) * Pow2(b)
  {
    if a > 0 {
      Pow2Add(a - 1, b);
      assert Pow2(a + b) == 2 * Pow2(a - 1 + b);
    }
  }

  lemma {:induction false} Pow2Monotone(a: nat, b: nat)
    requires a <= b
    ensures Pow2(a) <= Pow2(b)
  {
    if a < b {
      Pow2Monotone(a, b - 1);
    }
  }

  lemma Pow2Constants()
    ensures Pow2(8) == 0x100 && Pow2(16) == 0x1_0000 && Pow2(23) == 0x80_0000
  {
    assert Pow2(0) == 1;
    assert Pow2(1) == 2 && Pow2(2) == 4 && Pow2(3) == 8 && Pow2(4) == 16;
    assert Pow2(5) == 32 && Pow2(6) == 64 && Pow2(7) == 128 && Pow2(8) == 256;
    Pow2Add(8, 8);
    Pow2Add(16, 7);
  }

  /** The position of the highest set bit of n. */
  function Log2(n: nat): (e: nat)
    requires n >= 1
    ensures Pow2(e) <= n < Pow2(e + 1)
  {
    if n == 1 then 0 else 1 + Log2(n / 2)
  }

  /** BitConverter.ToUInt16(bytes, offset): the little-endian word at offset. */
  function ToUInt16(bytes: seq<byte>, offset: nat): (w: u16)
    requires offset + 1 < |bytes|
    ensures w as int % 0x100 == bytes[offset] as int
    ensures w as int / 0x100 == bytes[offset + 1] as int
  {
    (bytes[offset] as int + 0x100 * bytes[offset + 1] as int) as u16
  }
}
