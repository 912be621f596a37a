/** IEEE 802.1Q VLAN tag (section 9.6 of IEEE 802.1Q): a 16-bit tag
    control field (priority code point 3 bits, drop-eligible 1 bit,
    VLAN identifier 12 bits) followed by the 16-bit EtherType, 4 bytes. */
module Vlan {
  import opened Bytes

  const HdrSize: nat := 4

  /** The tag image for the given fields, in network order. */
  function Tag(pcp: nat, dei: bool, vid: nat, ethType: u16): (r: seq<byte>)
    requires pcp < 8 && vid < 0x1000
    ensures |r| == HdrSize
  {
    var tci := (pcp * 2 + (if dei then 1 else 0)) * 0x1000 + vid;
    ToBe16(tci) + ToBe16(ethType)
  }

  /** vlan_hdr_id: the VLAN identifier, the low 12 bits of the tag
      control field read in network order. Masking the 16-bit value with
      0x0fff keeps the low nibble of its first byte and all of its second. */
  function HdrId(hdr: seq<byte>): (r: nat)
    requires |hdr| >= HdrSize
    ensures r < 0x1000
    ensures r == Be16(hdr, 0) % 0x1000
  {
    var hi := (hdr[0] as bv8) & 0x0f;
    LowNibble(hdr[0]);
    MaskTag(hdr[0], hdr[1]);
    hi as int * 256 + hdr[1]
  }

  lemma LowNibble(b: byte)
    ensures ((b as bv8) & 0x0f) as int == b % 16
  {
    var x := b as bv8;
    assert x & 0x0f == x % 16;
    ByteRoundTrip(b);
    Bv8ModConv(x);
  }

  /** Masking the big-endian value with 0x0fff keeps the low nibble of the
      first byte and all of the second. */
  lemma MaskTag(b0: byte, b1: byte)
    ensures ((b0 as int) * 0x100 + b1) % 0x1000 == (b0 % 16) * 0x100 + b1
  {
    var q, r := b0 / 16, b0 % 16;
    assert (b0 as int) * 0x100 + b1 == q * 0x1000 + (r * 0x100 + b1);
    MulAddMod(q, r * 0x100 + b1);
  }

  /** Reading the identifier back from a tag built from fields gives the
      identifier that was put in, whatever the priority, drop-eligible bit
      and EtherType are. */
  lemma HdrIdOfTag(pcp: nat, dei: bool, vid: nat, ethType: u16)
    requires pcp < 8 && vid < 0x1000
    ensures HdrId(Tag(pcp, dei, vid, ethType)) == vid
  {
    var k := pcp * 2 + (if dei then 1 else 0);
    var t := Tag(pcp, dei, vid, ethType);
    assert Be16(t, 0) == k * 0x1000 + vid;
    MulAddMod(k, vid);
  }

  lemma MulAddMod(k: nat, v: nat)
    requires v < 0x1000
    ensures (k * 0x1000 + v) % 0x1000 == v
  {
  }
}
