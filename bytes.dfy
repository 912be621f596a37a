/** Byte-level vocabulary shared by the protocol readers and writers:
    bytes and fixed-width unsigned integers, big- and little-endian field
    readers, XOR of two bytes, and an Option type. */
module Bytes {

  type byte = x: int | 0 <= x < 0x100
  type u16 = x: int | 0 <= x < 0x1_0000
  type u32 = x: int | 0 <= x < 0x1_0000_0000
  type u64 = x: int | 0 <= x < 0x1_0000_0000_0000_0000

  datatype Option<+T> = None | Some(value: T)

  /** Big-endian ("network order") 16-bit field at offset i. */
  function Be16(b: seq<byte>, i: nat): u16
    requires i + 2 <= |b|
  {
    (b[i] as int) * 0x100 + b[i + 1]
  }

  /** Big-endian 24-bit field at offset i. */
  function Be24(b: seq<byte>, i: nat): nat
    requires i + 3 <= |b|
  {
    (b[i] as int) * 0x1_0000 + (b[i + 1] as int) * 0x100 + b[i + 2]
  }

  /** Big-endian 32-bit field at offset i. */
  function Be32(b: seq<byte>, i: nat): u32
    requires i + 4 <= |b|
  {
    Be16(b, i) * 0x1_0000 + Be16(b, i + 2)
  }

  /** Big-endian 64-bit field at offset i. */
  function Be64(b: seq<byte>, i: nat): u64
    requires i + 8 <= |b|
  {
    Be32(b, i) * 0x1_0000_0000 + Be32(b, i + 4)
  }

  /** Little-endian 16-bit field at offset i. */
  function Le16(b: seq<byte>, i: nat): u16
    requires i + 2 <= |b|
  {
    b[i] + (b[i + 1] as int) * 0x100
  }

  /** Little-endian 32-bit field at offset i. */
  function Le32(b: seq<byte>, i: nat): u32
    requires i + 4 <= |b|
  {
    Le16(b, i) + Le16(b, i + 2) * 0x1_0000
  }

  /** Little-endian 64-bit field at offset i. */
  function Le64(b: seq<byte>, i: nat): u64
    requires i + 8 <= |b|
  {
    Le32(b, i) + Le32(b, i + 4) * 0x1_0000_0000
  }

  /** The two bytes of the 16-bit value v in network order. */
  function ToBe16(v: u16): (r: seq<byte>)
    ensures |r| == 2 && Be16(r, 0) == v
  {
    [v / 0x100, v % 0x100]
  }

  /** The three bytes of the 24-bit value v in network order. */
  function ToBe24(v: nat): (r: seq<byte>)
    requires v < 0x100_0000
    ensures |r| == 3 && Be24(r, 0) == v
  {
    [v / 0x1_0000] + ToBe16(v % 0x1_0000)
  }

  /** The four bytes of the 32-bit value v in network order. */
  function ToBe32(v: u32): (r: seq<byte>)
    ensures |r| == 4 && Be32(r, 0) == v
  {
    var hi, lo := ToBe16(v / 0x1_0000), ToBe16(v % 0x1_0000);
    assert Be16(hi + lo, 0) == Be16(hi, 0) && Be16(hi + lo, 2) == Be16(lo, 0);
    hi + lo
  }

  /** The eight bytes of the 64-bit value v in network order. */
  function ToBe64(v: u64): (r: seq<byte>)
    ensures |r| == 8 && Be64(r, 0) == v
  {
    var hi, lo := ToBe32(v / 0x1_0000_0000), ToBe32(v % 0x1_0000_0000);
    assert Be32(hi + lo, 0) == Be32(hi, 0) by {
      assert (hi + lo)[..4] == hi;
    }
    assert Be32(hi + lo, 4) == Be32(lo, 0) by {
      assert forall k :: 0 <= k < 4 ==> (hi + lo)[4 + k] == lo[k];
    }
    hi + lo
  }

  function Xor(a: byte, b: byte): byte
  {
    ((a as bv8) ^ (b as bv8)) as int
  }

  lemma Bv8RoundTrip(x: bv8)
    ensures (x as int) as bv8 == x
  {
  }

  lemma ByteRoundTrip(a: byte)
    ensures (a as bv8) as int == a
  {
    RoundTripFrom(a, a / 0x10 * 0x10);
  }

  /** The round trip on one sixteenth of the byte range. */
  lemma RoundTripFrom(a: byte, lo: byte)
    requires lo <= a < lo + 0x10
    ensures (a as bv8) as int == a
  {
    if a < lo + 4 {} else if a < lo + 8 {} else if a < lo + 12 {} else {}
  }

  /** Division of a byte by 16 is the same on bv8 and on int. */
  lemma Bv8DivConv(x: bv8)
    ensures (x / 16) as int == (x as int) / 16
  {
    if x < 0x40 {} else if x < 0x80 {} else if x < 0xc0 {} else {}
  }

  /** The remainder modulo 16 is the same on bv8 and on int. */
  lemma Bv8ModConv(x: bv8)
    ensures (x % 16) as int == (x as int) % 16
  {
    if x < 0x40 {} else if x < 0x80 {} else if x < 0xc0 {} else {}
  }

  lemma Bv8XorInvolutive(x: bv8, y: bv8)
    ensures (x ^ y) ^ y == x
  {
  }

  /** XOR with the same byte twice gives the original byte back. */
  lemma XorInvolutive(a: byte, b: byte)
    ensures Xor(Xor(a, b), b) == a
  {
    var x, y := a as bv8, b as bv8;
    var z := x ^ y;
    assert Xor(a, b) == z as int;
    Bv8RoundTrip(z);
    Bv8XorInvolutive(x, y);
    ByteRoundTrip(a);
  }

  function Min(a: int, b: int): int
  {
    if a < b then a else b
  }

  /** ASCII "xyz" as bytes. */
  function Ascii(s: string): (r: seq<byte>)
    requires forall i :: 0 <= i < |s| ==> s[i] as int < 0x100
    ensures |r| == |s|
  {
    if s == [] then [] else [s[0] as int] + Ascii(s[1..])
  }
}
