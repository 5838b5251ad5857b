/** Little-endian 32-bit words, the layout of BPF stack keys and inotify headers. */
module Bytes {
  type byte = b: int | 0 <= b < 256
  const TWO_TO_THE_32: int := 0x1_0000_0000
  const TWO_TO_THE_64: int := 0x1_0000_0000_0000_0000
  type u32 = x: int | 0 <= x < TWO_TO_THE_32
  type u64 = x: int | 0 <= x < TWO_TO_THE_64

  function Encode32(v: u32): (b: seq<byte>)
    ensures |b| == 4
  {
    [v % 256, v / 256 % 256, v / 0x1_0000 % 256, v / 0x100_0000]
  }

  function Decode32(b: seq<byte>): u32
    requires |b| == 4
  {
    b[0] as int + 256 * (b[1] as int) + 0x1_0000 * (b[2] as int) + 0x100_0000 * (b[3] as int)
  }

  lemma DecodeEncode32(v: u32)
    ensures Decode32(Encode32(v)) == v
  {
    assert v / 256 / 256 == v / 0x1_0000;
    assert v / 0x1_0000 / 256 == v / 0x100_0000;
  }
}
