/** range16: a memory region stored as a 16-bit offset and a 16-bit
    length relative to a base buffer, in 4 bytes instead of a full
    pointer-and-length pair. */
module Range16 {
  import opened Bytes

  class Range16 {
    var off: u16
    var len: u16

    constructor ()
      ensures off == 0 && len == 0
    {
      off, len := 0, 0;
    }

    /** range16_set: both arguments are stored truncated to 16 bits. */
    method Set(newOff: u32, newLen: u32)
      modifies this
      ensures off == newOff % 0x1_0000 && len == newLen % 0x1_0000
    {
      off := newOff % 0x1_0000;
      len := newLen % 0x1_0000;
    }

    /** range16_tostr: the view of base the range designates. */
    function ToStr(base: seq<byte>): (s: seq<byte>)
      reads this
      requires off as int + len as int <= |base|
      ensures |s| == len as int && |s| < 0x1_0000
      ensures forall i :: 0 <= i < |s| ==> s[i] == base[off as int + i]
    {
      base[off..off as int + len as int]
    }
  }

  /** A range set from values that fit 16 bits designates exactly
      base[off..off + len]; larger values lose their high bits. */
  method SetThenView(r: Range16, base: seq<byte>, off: u32, len: u32) returns (s: seq<byte>)
    requires off < 0x1_0000 && len < 0x1_0000 && off + len <= |base|
    modifies r
    ensures s == base[off..off + len]
  {
    r.Set(off, len);
    s := r.ToStr(base);
  }
}
