/** Octets, fixed-width words and the small result types shared by the models. */
module Bytes {
  type byte = x: int | 0 <= x < 0x100
  type uint16 = x: int | 0 <= x < 0x1_0000
  type uint32 = x: int | 0 <= x < 0x1_0000_0000

  /** An IPv4 address. */
  type Address = a: seq<byte> | |a| == 4 witness [0, 0, 0, 0]

  datatype Option<+T> = None | Some(value: T)

  /** Big-endian serialisation of a 16-bit word. */
  function BigEndian16(x: uint16): (s: seq<byte>)
    ensures |s| == 2
  {
    [x / 0x100, x % 0x100]
  }

  function Word16(hi: byte, lo: byte): uint16 {
    hi * 0x100 + lo
  }

  /** Reading a word back. */
  lemma WordOfBigEndian(x: uint16)
    ensures Word16(BigEndian16(x)[0], BigEndian16(x)[1]) == x
  {
  }

  /** Big-endian serialisation of a 32-bit word. */
  function BigEndian32(x: uint32): (s: seq<byte>)
    ensures |s| == 4
  {
    BigEndian16(x / 0x1_0000) + BigEndian16(x % 0x1_0000)
  }

  /** Two octets of a buffer hold the value, the high one first. */
  ghost predicate IsWord(b: seq<byte>, i: nat, value: int) {
    i + 1 < |b| && 0x100 * (b[i] as int) + b[i + 1] == value
  }

  /** Four octets of a buffer hold the value, the highest first. */
  ghost predicate IsWord32(b: seq<byte>, i: nat, value: int) {
    && i + 3 < |b|
    && 0x100_0000 * (b[i] as int) + 0x1_0000 * (b[i + 1] as int) + 0x100 * (b[i + 2] as int) + b[i + 3] == value
  }

  lemma BigEndianIsWord(x: uint16)
    ensures IsWord(BigEndian16(x), 0, x)
  {
  }

  lemma BigEndianIsWord32(x: uint32)
    ensures IsWord32(BigEndian32(x), 0, x)
  {
    BigEndianIsWord(x / 0x1_0000);
    BigEndianIsWord(x % 0x1_0000);
  }
}
