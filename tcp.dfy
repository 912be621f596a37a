/** TCP header helpers (RFC 9293 section 3.1): the 20-byte fixed header
    image, the control-flag bits and the header length carried in the
    upper four bits of the data-offset byte. */
module Tcp {
  import opened Bytes

  /** Size of the fixed part of the header (ports, sequence and
      acknowledgment numbers, offset, flags, window, checksum, urgent). */
  const FixedHdrSize: nat := 20

  /** Control bits of the flags byte. */
  const FIN: byte := 0x01
  const SYN: byte := 0x02
  const RST: byte := 0x04
  const PUSH: byte := 0x08
  const ACK: byte := 0x10

  /** The data-offset byte of a header image (offset 12). */
  function OffByte(hdr: seq<byte>): byte
    requires |hdr| >= FixedHdrSize
  {
    hdr[12]
  }

  /** Header length in bytes: the high nibble of the offset byte counts
      32-bit words; the reserved low nibble is masked off. */
  function HdrLen(off: byte): (r: nat)
    ensures r == 4 * (off / 16)
    ensures r % 4 == 0 && r <= 60
  {
    var nibble := ((off as bv8) & 0xf0) >> 4;
    assert nibble as int == off / 16 by { NibbleIsQuotient(off); }
    nibble as int * 4
  }

  lemma NibbleIsQuotient(off: byte)
    ensures ((((off as bv8) & 0xf0) >> 4) as int) == off / 16
  {
    var x := off as bv8;
    assert (x & 0xf0) >> 4 == x / 16;
    ByteRoundTrip(off);
    Bv8DivConv(x);
  }

  /** The header length reaches the fixed header size exactly when the
      data offset is at least 5 words, whatever the reserved bits hold. */
  lemma HdrLenCoversFixedHeader(off: byte)
    ensures HdrLen(off) >= FixedHdrSize <==> off >= 0x50
  {
  }

  /** Whether control bit f is set in the flags byte. */
  function HasFlag(flags: byte, f: byte): bool
  {
    (flags as bv8) & (f as bv8) != 0
  }

  /** Each control bit is read independently of the other ones. */
  lemma FlagsIndependent(flags: byte)
    ensures HasFlag(flags, SYN) <==> (flags / 2) % 2 == 1
    ensures HasFlag(flags, ACK) <==> (flags / 16) % 2 == 1
    ensures HasFlag(flags, FIN) <==> flags % 2 == 1
    ensures HasFlag(flags, RST) <==> (flags / 4) % 2 == 1
    ensures HasFlag(flags, PUSH) <==> (flags / 8) % 2 == 1
  {
    var x := flags as bv8;
    assert (x & 2 != 0) == ((x >> 1) & 1 == 1);
    assert (x & 0x10 != 0) == ((x >> 4) & 1 == 1);
    assert (x & 1 != 0) == (x & 1 == 1);
    assert ((x >> 1) & 1) as int == (flags / 2) % 2;
    assert ((x >> 4) & 1) as int == (flags / 16) % 2;
    assert (x & 1) as int == flags % 2;
    assert (x & 4 != 0) == ((x >> 2) & 1 == 1);
    assert (x & 8 != 0) == ((x >> 3) & 1 == 1);
    assert ((x >> 2) & 1) as int == (flags / 4) % 2;
    assert ((x >> 3) & 1) as int == (flags / 8) % 2;
  }
}
