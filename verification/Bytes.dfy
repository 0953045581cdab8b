/** Bytes, sectors and little-endian fields. */
module Bytes {
  type Byte = b: nat | b < 256
  type Sector = s: seq<Byte> | |s| == 512 witness seq(512, _ => 0)

  function Le16(s: seq<Byte>, i: nat): (r: nat)
    requires i + 2 <= |s|
    ensures r < 0x1_0000
  {
    var low: nat, high: nat := s[i], s[i + 1];
    low + high * 256
  }

  function Le32(s: seq<Byte>, i: nat): (r: nat)
    requires i + 4 <= |s|
    ensures r < 0x1_0000_0000
  {
    Le16(s, i) + Le16(s, i + 2) * 0x1_0000
  }

  function Le64(s: seq<Byte>, i: nat): (r: nat)
    requires i + 8 <= |s|
    ensures r < 0x1_0000_0000_0000_0000
  {
    Le32(s, i) + Le32(s, i + 4) * 0x1_0000_0000
  }

  function Min(a: nat, b: nat): nat { if a < b then a else b }
}
