/** Fixed-width integers and byte strings as the firmware uses them. */
module Bytes {

  type byte = b: int | 0 <= b < 0x100
  type uint16 = n: int | 0 <= n < 0x1_0000
  type uint32 = n: int | 0 <= n < 0x1_0000_0000
  type uint64 = n: int | 0 <= n < 0x1_0000_0000_0000_0000

  /** The big-endian 16-bit value at offset `at`. */
  function Read16(data: seq<byte>, at: nat): uint16
    requires at + 2 <= |data|
  {
    data[at] as int * 0x100 + data[at + 1] as int
  }

  /** The big-endian 32-bit value at offset `at`. */
  function Read32(data: seq<byte>, at: nat): uint32
    requires at + 4 <= |data|
  {
    Read16(data, at) as int * 0x1_0000 + Read16(data, at + 2) as int
  }

  function Bytes16(value: uint16): (b: seq<byte>)
    ensures |b| == 2 && Read16(b, 0) == value
  {
    [value / 0x100, value % 0x100]
  }

  function Bytes32(value: uint32): (b: seq<byte>)
    ensures |b| == 4 && Read32(b, 0) == value
  {
    Bytes16(value / 0x1_0000) + Bytes16(value % 0x1_0000)
  }

  /** The bytes of an ASCII text. */
  function Ascii(text: string): (b: seq<byte>)
    requires forall i :: 0 <= i < |text| ==> text[i] < '\U{80}'
    ensures |b| == |text| && forall i :: 0 <= i < |text| ==> b[i] == text[i] as int
  {
    seq(|text|, i requires 0 <= i < |text| => text[i] as int)
  }

  /** `data` with the bytes from offset `at` overwritten by `patch`. */
  function Overwrite(data: seq<byte>, at: nat, patch: seq<byte>): (r: seq<byte>)
    requires at + |patch| <= |data|
    ensures |r| == |data|
    ensures forall i :: 0 <= i < |data| ==> r[i] == if at <= i < at + |patch| then patch[i - at] else data[i]
  {
    data[..at] + patch + data[at + |patch|..]
  }
}
