/**
  * Fixed-width machine values. Bit operations of the C source are written as the
  * arithmetic they perform: `x & 0xff` is `x % 0x100`, `x >> 8` is `x / 0x100`, and a
  * sum that may leave its type is wrapped explicitly.
  */
module Words {

  datatype Option<+T> = None | Some(value: T)

  type Byte = x: int | 0 <= x < 0x100
  type Word16 = x: int | 0 <= x < 0x1_0000
  type Word32 = x: int | 0 <= x < 0x1_0000_0000

  /** The value of two bytes in network order. */
  function BE16(hi: Byte, lo: Byte): Word16 {
    0x100 * hi + lo
  }

  function HighByte(w: Word16): Byte {
    w / 0x100
  }

  function LowByte(w: Word16): Byte {
    w % 0x100
  }

  lemma WordParts(hi: Byte, lo: Byte)
    ensures HighByte(BE16(hi, lo)) == hi && LowByte(BE16(hi, lo)) == lo
  {
    var w := 0x100 * hi + lo;
    assert w / 0x100 == hi;
    assert w % 0x100 == lo;
  }

  lemma PartsWord(w: Word16)
    ensures BE16(HighByte(w), LowByte(w)) == w
  {
  }

  function Swap16(w: Word16): Word16 {
    BE16(LowByte(w), HighByte(w))
  }

  function Wrap16(x: nat): Word16 {
    x % 0x1_0000
  }

  function Wrap32(x: nat): Word32 {
    x % 0x1_0000_0000
  }

  /** The value of four bytes in network order. */
  function BE32(a: Byte, b: Byte, c: Byte, d: Byte): Word32 {
    0x100_0000 * (a as int) + 0x1_0000 * (b as int) + 0x100 * (c as int) + d
  }

  /** Byte `k` of a 32-bit value in network order. */
  function ByteOf32(w: Word32, k: nat): Byte
    requires k < 4
  {
    if k == 0 then w / 0x100_0000
    else if k == 1 then (w / 0x1_0000) % 0x100
    else if k == 2 then (w / 0x100) % 0x100
    else w % 0x100
  }

  lemma BytesOf32(w: Word32)
    ensures BE32(ByteOf32(w, 0), ByteOf32(w, 1), ByteOf32(w, 2), ByteOf32(w, 3)) == w
  {
    var high, low := w / 0x1_0000, w % 0x1_0000;
    assert w == 0x1_0000 * high + low;
    assert high == 0x100 * (high / 0x100) + high % 0x100;
    assert low == 0x100 * (low / 0x100) + low % 0x100;
    assert w / 0x100_0000 == high / 0x100;
    assert (w / 0x100) % 0x100 == low / 0x100;
    assert w % 0x100 == low % 0x100;
  }
}
