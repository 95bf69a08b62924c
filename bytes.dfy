/** Shared vocabulary: octets, an optional value, little-endian fields. */
module Bytes {

  /** One octet, as stored in a Python bytearray or a C uint8_t. */
  type byte = x: int | 0 <= x < 256

  datatype Option<+T> = None | Some(value: T)

  /** The little-endian encoding of `v` reduced modulo 256^n into `n` octets. */
  function LittleEndian(v: int, n: nat): (r: seq<byte>)
    ensures |r| == n
    decreases n
  {
    if n == 0 then [] else [v % 256] + LittleEndian(v / 256, n - 1)
  }

  /** The unsigned value of little-endian octets. */
  function FromLittleEndian(s: seq<byte>): nat
  {
    if s == [] then 0 else s[0] + 256 * FromLittleEndian(s[1..])
  }

  /** The 16-bit little-endian field at `offset`: the value that encodes to
      those two bytes. */
  function HalfWordAt(s: seq<byte>, offset: nat): (v: nat)
    requires offset + 2 <= |s|
    ensures v < 0x1_0000
    ensures LittleEndian(v, 2) == s[offset..offset + 2]
    ensures FromLittleEndian(s[offset..offset + 2]) == v
  {
    var field := s[offset..offset + 2];
    assert field[1..][1..] == [] && field[0] == s[offset] && field[1..][0] == s[offset + 1];
    assert FromLittleEndian(field[1..]) == s[offset + 1];
    s[offset] as nat + 256 * s[offset + 1] as nat
  }

  /** A 16-bit field reads back as the value written, reduced modulo 2^16. */
  lemma LittleEndian16(v: int)
    ensures FromLittleEndian(LittleEndian(v, 2)) == v % 0x1_0000
  {
    var s := LittleEndian(v, 2);
    assert s == [v % 256, (v / 256) % 256];
    assert FromLittleEndian(s[1..][1..]) == 0;
    assert FromLittleEndian(s) == v % 256 + 256 * ((v / 256) % 256);
  }

  /** A 32-bit field reads back as the value written, reduced modulo 2^32. */
  lemma LittleEndian32(v: int)
    ensures FromLittleEndian(LittleEndian(v, 4)) == v % 0x1_0000_0000
  {
    var s := LittleEndian(v, 4);
    var w := v / 256;
    assert s[1..] == LittleEndian(w, 3);
    assert s[1..][1..] == LittleEndian(w / 256, 2);
    LittleEndian16(w / 256);
    Mod24(w);
    assert FromLittleEndian(s[1..]) == w % 0x100_0000;
    Mod32(v);
  }

  lemma Mod24(w: int)
    ensures w % 256 + 256 * ((w / 256) % 0x1_0000) == w % 0x100_0000
  {
  }

  lemma Mod32(v: int)
    ensures v % 256 + 256 * ((v / 256) % 0x100_0000) == v % 0x1_0000_0000
  {
  }
}
