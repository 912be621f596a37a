/** WebSocket framing (RFC 6455 sections 5.2-5.4): an incremental frame
    reader that gathers the header across calls, checks it, and hands the
    payload out in chunks, unmasking it with the frame's masking key; and
    a frame writer that produces a header and then the (masked) payload. */
module WebSocket {
  import opened Bytes

  /** Size of the reader's and writer's internal buffer. */
  const BufSize: nat := 4096
  /** Longest frame header: 2 fixed bytes, 8 length bytes, 4 key bytes. */
  const MaxHdr: nat := 14
  const MaxMsg1: nat := 126
  const MaxMsg2: nat := 0xffff
  const MaxMsg: nat := 0x00ff_ffff_ffff_ffff

  /** Opcodes. */
  const OpCont: nat := 0
  const OpText: nat := 1
  const OpBin: nat := 2
  const OpClose: nat := 8
  const OpPing: nat := 9
  const OpPong: nat := 10

  /** Results of the reader and writer. */
  datatype WsResult = RMore | RErr | RMsg | RData | RDataFin

  /** Fields of the first two header bytes; the C masks 0x80, 0x70, 0x0f
      and 0x7f are written as arithmetic on the byte value. */
  function Op(b0: byte): nat { b0 % 16 }
  predicate FinBit(b0: byte) { b0 >= 0x80 }
  function Rsv(b0: byte): nat { (b0 / 16) % 8 }
  predicate MaskBit(b1: byte) { b1 >= 0x80 }
  function LenCode(b1: byte): nat { b1 % 0x80 }

  /** Size of the extended payload length: 2 bytes after code 126, 8 after 127. */
  function ExtLen(b1: byte): nat
  {
    if LenCode(b1) == 126 then 2 else if LenCode(b1) == 127 then 8 else 0
  }

  function HdrLen(b1: byte): nat
  {
    2 + ExtLen(b1) + (if MaskBit(b1) then 4 else 0)
  }

  /** Offset of the masking key in the header, 0 when there is none. */
  function MaskOff(b1: byte): nat
  {
    if MaskBit(b1) then 2 + ExtLen(b1) else 0
  }

  /** The checks the first two bytes must pass: reserved bits clear, a
      continuation frame exactly when a fragmented message is in progress,
      and, on the server side, a masked frame. */
  predicate FirstTwoOk(b0: byte, b1: byte, cont: bool, server: bool)
  {
    Rsv(b0) == 0 && (cont <==> Op(b0) == OpCont) && (server ==> MaskBit(b1))
  }

  function PayloadLen(h: seq<byte>): nat
    requires |h| >= 2 && |h| >= HdrLen(h[1])
  {
    var lc := LenCode(h[1]);
    if lc < 126 then lc else if lc == 126 then Be16(h, 2) else Be64(h, 2)
  }

  /** Outcome of decoding a frame header from the bytes gathered so far. */
  datatype Decoded =
    | NeedMore
    | Reject
    | Header(len: nat, fin: bool, op: nat, datalen: nat, masked: bool, key: seq<byte>)

  /** Reference decoding of a frame header (RFC 6455 section 5.2) from
      the start of h, given whether a fragmented message is in progress
      and whether this is the server side. */
  function DecodeHeader(h: seq<byte>, cont: bool, server: bool): (d: Decoded)
    ensures d.Header? ==> 2 <= d.len <= MaxHdr && d.len <= |h| && d.op < 16
    ensures d.Header? ==> (d.masked <==> |d.key| == 4)
    ensures d.Header? ==> d.datalen <= MaxMsg
    ensures d.NeedMore? ==> |h| < MaxHdr
  {
    if |h| < 2 then NeedMore
    else if !FirstTwoOk(h[0], h[1], cont, server) then Reject
    else if |h| < HdrLen(h[1]) then NeedMore
    else if LenCode(h[1]) == 127 && h[2] != 0 then Reject
    else if LenCode(h[1]) == 127 then
      assert Be16(h, 2) < 0x100 && Be32(h, 2) < 0x100_0000;
      Header(HdrLen(h[1]), FinBit(h[0]), Op(h[0]), PayloadLen(h), MaskBit(h[1]),
             if MaskBit(h[1]) then h[MaskOff(h[1])..MaskOff(h[1]) + 4] else [])
    else Header(HdrLen(h[1]), FinBit(h[0]), Op(h[0]), PayloadLen(h), MaskBit(h[1]),
                if MaskBit(h[1]) then h[MaskOff(h[1])..MaskOff(h[1]) + 4] else [])
  }

  /** Once a header is decided, more bytes after it do not change it: the
      reader may receive its input split anywhere. */
  lemma DecodePrefix(h: seq<byte>, e: seq<byte>, cont: bool, server: bool)
    requires !DecodeHeader(h, cont, server).NeedMore?
    ensures DecodeHeader(h + e, cont, server) == DecodeHeader(h, cont, server)
  {
    var he := h + e;
    assert he[0] == h[0] && he[1] == h[1];
    if FirstTwoOk(h[0], h[1], cont, server) && |h| >= HdrLen(h[1]) {
      var n := HdrLen(h[1]);
      assert he[..n] == h[..n];
      assert forall k :: 0 <= k < n ==> he[k] == h[k];
      if MaskBit(h[1]) {
        assert he[MaskOff(h[1])..MaskOff(h[1]) + 4] == h[MaskOff(h[1])..MaskOff(h[1]) + 4];
      }
    }
  }

  /** XOR of data with the 4-byte key cycle, the first byte taking key
      byte pos (RFC 6455 section 5.3). */
  function XorFrom(data: seq<byte>, key: seq<byte>, pos: nat): (r: seq<byte>)
    requires |key| == 4
    ensures |r| == |data|
  {
    if data == [] then [] else [Xor(data[0], key[pos % 4])] + XorFrom(data[1..], key, pos + 1)
  }

  /** Masking is its own inverse: unmasking masked data restores it. */
  lemma {:induction false} XorFromInvolutive(data: seq<byte>, key: seq<byte>, pos: nat)
    requires |key| == 4
    ensures XorFrom(XorFrom(data, key, pos), key, pos) == data
  {
    if data != [] {
      var m := XorFrom(data, key, pos);
      assert m[0] == Xor(data[0], key[pos % 4]) && m[1..] == XorFrom(data[1..], key, pos + 1);
      XorInvolutive(data[0], key[pos % 4]);
      XorFromInvolutive(data[1..], key, pos + 1);
    }
  }

  /** Only the key position modulo 4 matters. */
  lemma {:induction false} XorFromPhase(data: seq<byte>, key: seq<byte>, p: nat, q: nat)
    requires |key| == 4 && p % 4 == q % 4
    ensures XorFrom(data, key, p) == XorFrom(data, key, q)
  {
    if data != [] {
      XorFromPhase(data[1..], key, p + 1, q + 1);
    }
  }

  /** Unmasking in two pieces matches unmasking at once when the second
      piece continues at the key byte where the first one stopped. */
  lemma {:induction false} XorFromSplit(a: seq<byte>, b: seq<byte>, key: seq<byte>, pos: nat)
    requires |key| == 4
    ensures XorFrom(a, key, pos) + XorFrom(b, key, (pos + |a|) % 4) == XorFrom(a + b, key, pos)
  {
    if a == [] {
      assert a + b == b;
      XorFromPhase(b, key, pos % 4, pos);
    } else {
      var x := [Xor(a[0], key[pos % 4])];
      var tail, rest := XorFrom(a[1..], key, pos + 1), XorFrom(b, key, (pos + |a|) % 4);
      assert XorFrom(a, key, pos) == x + tail;
      assert (a + b)[1..] == a[1..] + b;
      assert XorFrom(a + b, key, pos) == x + XorFrom(a[1..] + b, key, pos + 1);
      assert pos + 1 + |a[1..]| == pos + |a|;
      XorFromSplit(a[1..], b, key, pos + 1);
      AppendAssoc(x, tail, rest);
    }
  }

  /** Concatenation is associative. */
  lemma AppendAssoc(x: seq<byte>, y: seq<byte>, z: seq<byte>)
    ensures (x + y) + z == x + (y + z)
  {
  }

  /** Result of one call in the payload state. */
  datatype BodyOut = BodyOut(r: WsResult, chunk: seq<byte>, rest: seq<byte>, left: nat, pos: nat)

  /** One payload step: with dl payload bytes still due, the input at
      hand, whether the frame is masked, its key and the key position of
      the next payload byte. The payload ends with RDataFin once nothing
      is due; otherwise the largest chunk available is handed out, at most
      one buffer's worth when it must be unmasked into the buffer. */
  function BodyStep(dl: nat, input: seq<byte>, masked: bool, key: seq<byte>, pos: nat): (b: BodyOut)
    requires |key| == 4 && pos < 4
    ensures b.r == RDataFin <==> dl == 0
    ensures b.r == RMore <==> dl > 0 && input == []
    ensures b.r == RData ==> 0 < |b.chunk| <= Min(dl, |input|) && (masked ==> |b.chunk| <= BufSize)
    ensures b.r == RData ==> b.left == dl - |b.chunk| && b.rest == input[|b.chunk|..]
    ensures !masked && b.r == RData ==> b.chunk == input[..Min(dl, |input|)] && b.pos == pos
    ensures b.pos < 4
  {
    if dl == 0 then BodyOut(RDataFin, [], input, 0, pos)
    else if input == [] then BodyOut(RMore, [], [], dl, pos)
    else
      var nn := Min(dl, |input|);
      if masked then
        var n := Min(nn, BufSize);
        BodyOut(RData, XorFrom(input[..n], key, pos), input[n..], dl - n, (pos + n) % 4)
      else BodyOut(RData, input[..nn], input[nn..], dl - nn, pos)
  }

  /** A masked payload step on input hands out the unmasked first
      Min(dl, |input|, 4096) bytes and advances the key position by as
      many. */
  lemma MaskedStep(dl: nat, input: seq<byte>, key: seq<byte>, pos: nat)
    requires |key| == 4 && pos < 4 && dl > 0 && input != []
    ensures var c := Min(Min(dl, |input|), BufSize);
            BodyStep(dl, input, true, key, pos) == BodyOut(RData, XorFrom(input[..c], key, pos), input[c..], dl - c, (pos + c) % 4)
  {
  }

  /** Two payload steps in a row, on the same input or on the next one,
      hand out the unmasking of the bytes they consume taken together:
      the key position carries over from one step to the next, so the
      chunks of a payload concatenate to the unmasked payload however it
      is split. */
  lemma ChunksCompose(dl: nat, in1: seq<byte>, in2: seq<byte>, key: seq<byte>, pos: nat)
    requires |key| == 4 && pos < 4
    requires BodyStep(dl, in1, true, key, pos).r == RData
    requires var b1 := BodyStep(dl, in1, true, key, pos);
             BodyStep(b1.left, in2, true, key, b1.pos).r == RData
    ensures var b1 := BodyStep(dl, in1, true, key, pos);
            var b2 := BodyStep(b1.left, in2, true, key, b1.pos);
            b1.chunk + b2.chunk == XorFrom(in1[..|b1.chunk|] + in2[..|b2.chunk|], key, pos)
  {
    MaskedStep(dl, in1, key, pos);
    var b1 := BodyStep(dl, in1, true, key, pos);
    MaskedStep(b1.left, in2, key, b1.pos);
    var c := |b1.chunk|;
    XorFromSplit(in1[..c], in2[..|BodyStep(b1.left, in2, true, key, b1.pos).chunk|], key, pos);
  }

  /** As written, every masked chunk is unmasked from key byte 0
      (ffmem_xor4 is called afresh per chunk). */
  function UnmaskChunksAsWritten(chunks: seq<seq<byte>>, key: seq<byte>): seq<byte>
    requires |key| == 4
  {
    if chunks == [] then [] else XorFrom(chunks[0], key, 0) + UnmaskChunksAsWritten(chunks[1..], key)
  }

  /** A masked payload of four zero bytes under key 01 02 03 04 arriving
      as 1 + 3 bytes is unmasked as 01 01 02 03 instead of 01 02 03 04. */
  lemma MaskPhaseLostAsWritten()
    ensures UnmaskChunksAsWritten([[0], [0, 0, 0]], [1, 2, 3, 4]) == [1, 1, 2, 3]
    ensures XorFrom([0, 0, 0, 0], [1, 2, 3, 4], 0) == [1, 2, 3, 4]
  {
    var key: seq<byte> := [1, 2, 3, 4];
    assert Xor(0, 1) == 1 && Xor(0, 2) == 2 && Xor(0, 3) == 3 && Xor(0, 4) == 4;
    assert UnmaskChunksAsWritten([[0, 0, 0]], key) == XorFrom([0, 0, 0], key, 0);
  }

  /** Reader states. */
  datatype RState = Init | Gather | Hdr | HLen2 | HLen8 | HOk | Body

  function NextState(b1: byte): RState
  {
    if LenCode(b1) == 126 then HLen2 else if LenCode(b1) == 127 then HLen8 else HOk
  }

  /** ffwebskt: the frame reader. */
  class Reader {
    var state: RState
    var nxstate: RState
    var gathlen: nat
    var datalen: nat
    var maskOff: nat
    var mask: seq<byte>
    var op: nat
    var cont: bool
    var server: bool
    var inp: seq<byte>
    var out: seq<byte>
    const buf: array<byte>
    var nbuf: nat
    /** Key byte that unmasks the next payload byte. */
    var maskPos: nat
    /** The continuation flag in force before the frame being gathered. */
    ghost var frameCont: bool

    /** The fields the header state sets from the first two bytes. */
    ghost predicate FirstTwoSet(b0: byte, b1: byte)
      reads this
    {
      && op == Op(b0) && cont == !FinBit(b0) && maskOff == MaskOff(b1)
      && (LenCode(b1) < 126 ==> datalen == LenCode(b1))
      && FirstTwoOk(b0, b1, frameCont, server)
    }

    ghost predicate Valid()
      reads this, buf
    {
      && buf.Length == BufSize && nbuf <= MaxHdr && |mask| == 4 && maskPos < 4
      && (state.Init? || state.Gather? || state.Body?)
      && (state == Init ==> nbuf == 0 && frameCont == cont)
      && (state == Gather ==>
            && nbuf < gathlen <= MaxHdr
            && (nxstate == Hdr ==> gathlen == 2 && frameCont == cont)
            && (nxstate != Hdr ==> 2 <= nbuf && gathlen == HdrLen(buf[1])
                                   && nxstate == NextState(buf[1]) && FirstTwoSet(buf[0], buf[1])))
    }

    /** A zeroed reader (client side). */
    constructor ()
      ensures Valid() && state == Init && !server && !cont && inp == [] && out == []
      ensures fresh(buf)
    {
      state, nxstate, gathlen, datalen, maskOff := Init, Init, 0, 0, 0;
      mask, op, cont, server := [0, 0, 0, 0], 0, false, false;
      inp, out, nbuf, maskPos := [], [], 0, 0;
      buf := new byte[BufSize];
      frameCont := false;
    }

    /** ffwebskt_accept: switch to the server side and hand out the
        Sec-WebSocket-Accept value, base64(SHA-1(client key + GUID)),
        which is computed outside this model. */
    method Accept(acceptValue: seq<byte>)
      requires Valid() && state == Init
      modifies this
      ensures Valid() && server && out == acceptValue
      ensures state == old(state) && inp == old(inp) && nbuf == old(nbuf) && cont == old(cont)
    {
      out := acceptValue;
      server := true;
    }

    /** ffwebskt_input: set the input data. */
    method Input(data: seq<byte>)
      requires Valid()
      modifies this
      ensures Valid() && inp == data
      ensures state == old(state) && nbuf == old(nbuf) && datalen == old(datalen) && server == old(server)
      ensures cont == old(cont) && maskOff == old(maskOff) && mask == old(mask) && maskPos == old(maskPos)
    {
      inp := data;
    }

    /** The reader state after a payload step b. */
    ghost predicate BodyAfter(b: BodyOut, r: WsResult, oldOut: seq<byte>)
      reads this
    {
      && r == b.r && inp == b.rest && datalen == b.left && maskPos == b.pos
      && (r == RData ==> out == b.chunk)
      && (r != RData ==> out == oldOut)
      && (r == RDataFin ==> state == Gather && nxstate == Hdr && gathlen == 2 && nbuf == 0 && frameCont == cont)
      && (r != RDataFin ==> state == Body)
    }

    /** The R_BODY state of ffwebskt_parse. */
    method ReadBody() returns (r: WsResult)
      requires state == Body && buf.Length == BufSize && |mask| == 4 && maskPos < 4 && nbuf <= MaxHdr
      modifies this, buf
      ensures BodyAfter(BodyStep(old(datalen), old(inp), old(maskOff) != 0, old(mask), old(maskPos)), r, old(out))
      ensures r != RDataFin ==> nbuf == old(nbuf)
      ensures op == old(op) && cont == old(cont) && server == old(server)
      ensures maskOff == old(maskOff) && mask == old(mask)
      ensures Valid()
    {
      if datalen == 0 {
        EndPayload();
        return RDataFin;
      }
      if |inp| == 0 {
        return RMore;
      }
      var nn := Min(datalen, |inp|);
      if maskOff != 0 {
        nn := Min(nn, BufSize);
        Unmask(nn);
        Advance(buf[..nn], nn, (maskPos + nn) % 4);
      } else {
        Advance(inp[..nn], nn, maskPos);
      }
      return RData;
    }

    /** The payload is complete: gather the next frame's first two bytes. */
    method EndPayload()
      modifies this
      ensures state == Gather && nxstate == Hdr && gathlen == 2 && nbuf == 0 && frameCont == cont
      ensures inp == old(inp) && out == old(out) && datalen == old(datalen) && maskPos == old(maskPos)
      ensures op == old(op) && cont == old(cont) && server == old(server)
      ensures maskOff == old(maskOff) && mask == old(mask)
    {
      nbuf := 0;
      state, nxstate, gathlen := Gather, Hdr, 2;
      frameCont := cont;
    }

    /** Hand out chunk for the next n payload bytes, continuing with key
        byte pos. */
    method Advance(chunk: seq<byte>, n: nat, pos: nat)
      requires n <= datalen && n <= |inp|
      modifies this
      ensures out == chunk && inp == old(inp)[n..] && datalen == old(datalen) - n && maskPos == pos
      ensures state == old(state) && nbuf == old(nbuf) && op == old(op) && cont == old(cont)
      ensures server == old(server) && maskOff == old(maskOff) && mask == old(mask)
    {
      out, inp, datalen, maskPos := chunk, inp[n..], datalen - n, pos;
    }

    /** ffmem_xor4 into the buffer: the first n input bytes unmasked. */
    method Unmask(n: nat)
      requires buf.Length == BufSize && n <= BufSize && n <= |inp| && |mask| == 4
      modifies buf
      ensures buf[..n] == XorFrom(inp[..n], mask, maskPos)
    {
      var plain := XorFrom(inp[..n], mask, maskPos);
      forall k | 0 <= k < n {
        buf[k] := plain[k];
      }
    }

    function Rank(): nat
      reads this
    {
      match state
      case Gather => if nxstate == Hdr then 6 else 4
      case Hdr => 5
      case HLen2 => 3
      case HLen8 => 3
      case HOk => 2
      case _ => 0
    }

    /** What holds between the header states while a header is decoded
        from h, the bytes gathered before the call followed by its input,
        with fc the continuation flag in force before this frame. */
    ghost predicate HdrInv(h: seq<byte>, fc: bool)
      reads this, buf
    {
      && HdrCommon(h, fc)
      && match state
         case Gather =>
           && nbuf < gathlen <= MaxHdr
           && (nxstate == Hdr ==> gathlen == 2 && cont == fc)
           && (nxstate != Hdr ==> HdrKnown(h) && gathlen == HdrLen(h[1]) && nxstate == NextState(h[1]))
         case Hdr => nbuf == 2 && cont == fc
         case HLen2 => HdrKnown(h) && nbuf == HdrLen(h[1]) && LenCode(h[1]) == 126
         case HLen8 => HdrKnown(h) && nbuf == HdrLen(h[1]) && LenCode(h[1]) == 127
         case HOk => HdrKnown(h) && nbuf == HdrLen(h[1]) && datalen == PayloadLen(h)
                     && (LenCode(h[1]) == 127 ==> h[2] == 0)
         case _ => false
    }

    /** What holds in every header state: the gathered bytes followed
        by the remaining input are h. */
    ghost predicate HdrCommon(h: seq<byte>, fc: bool)
      reads this, buf
    {
      && buf.Length == BufSize && nbuf <= MaxHdr && |mask| == 4 && maskPos < 4 && frameCont == fc
      && nbuf <= |h| && buf[..nbuf] == h[..nbuf] && inp == h[nbuf..]
    }

    /** The first two header bytes are in and their fields are set. */
    ghost predicate HdrKnown(h: seq<byte>)
      reads this
    {
      2 <= nbuf <= |h| && FirstTwoSet(h[0], h[1])
    }

    /** Move the first n input bytes to the end of the gathered ones. */
    method CopyIn(n: nat)
      requires buf.Length == BufSize && nbuf + n <= BufSize && n <= |inp|
      modifies this, buf
      ensures nbuf == old(nbuf) + n && buf[..nbuf] == old(buf[..nbuf]) + old(inp)[..n] && inp == old(inp)[n..]
      ensures state == old(state) && nxstate == old(nxstate) && gathlen == old(gathlen) && datalen == old(datalen)
      ensures op == old(op) && cont == old(cont) && maskOff == old(maskOff) && server == old(server)
      ensures mask == old(mask) && maskPos == old(maskPos) && frameCont == old(frameCont) && out == old(out)
    {
      forall k | 0 <= k < n {
        buf[nbuf + k] := inp[k];
      }
      assert buf[..nbuf + n] == old(buf[..nbuf]) + inp[..n];
      nbuf, inp := nbuf + n, inp[n..];
    }

    /** Input that runs out while gathering leaves the header undecided. */
    lemma GatheredValid(h: seq<byte>, fc: bool)
      requires HdrInv(h, fc) && state == Gather && buf[..nbuf] == h && inp == []
      ensures Outcome(h, fc, server, RMore, false)
    {
      assert nbuf >= 2 ==> buf[0] == h[0] && buf[1] == h[1];
      assert Valid() && DecodeHeader(h, fc, server).NeedMore?;
    }

    /** The R_GATHER state: copy input into the buffer until gathlen bytes
        are there; when the input runs out first, the header is still
        undecided. */
    method GatherStep(ghost h: seq<byte>, ghost fc: bool) returns (more: bool)
      requires state == Gather && HdrInv(h, fc)
      modifies this, buf
      ensures server == old(server) && out == old(out) && nbuf <= MaxHdr
      ensures more ==> Outcome(h, fc, server, RMore, false)
      ensures !more ==> HdrInv(h, fc) && Rank() < old(Rank())
    {
      var n := Min(gathlen - nbuf, |inp|);
      CopyIn(n);
      assert buf[..nbuf] == h[..nbuf] by {
        assert h[..nbuf] == h[..old(nbuf)] + old(inp)[..n];
      }
      if nbuf != gathlen {
        assert inp == [] && h == buf[..nbuf];
        GatheredValid(h, fc);
        return true;
      }
      state := nxstate;
      GatheredAll(h, fc);
      return false;
    }

    /** A header part fully gathered moves on to the state that reads it. */
    lemma GatheredAll(h: seq<byte>, fc: bool)
      requires HdrCommon(h, fc) && nbuf == gathlen && state == nxstate
      requires nxstate == Hdr ==> gathlen == 2 && cont == fc
      requires nxstate != Hdr ==> HdrKnown(h) && gathlen == HdrLen(h[1]) && nxstate == NextState(h[1])
      ensures HdrInv(h, fc)
    {
    }

    /** The R_HDR state once the checks on the first two bytes passed:
        set the fields they determine and work out how much of the header
        is still to come. */
    method HdrStep(ghost h: seq<byte>, ghost fc: bool)
      requires state == Hdr && HdrCommon(h, fc) && nbuf == 2 && cont == fc
      requires FirstTwoOk(buf[0], buf[1], cont, server)
      modifies this
      ensures server == old(server) && out == old(out) && mask == old(mask) && nbuf == old(nbuf)
      ensures HdrInv(h, fc) && Rank() < 5
    {
      var b0, b1 := buf[0], buf[1];
      assert h[0] == b0 && h[1] == b1;
      SetFirstTwo(b0, b1);
      FirstTwoDone(h, fc);
    }

    /** The fields the first two header bytes determine. */
    method SetFirstTwo(b0: byte, b1: byte)
      modifies this
      ensures op == Op(b0) && cont == !FinBit(b0) && maskOff == MaskOff(b1) && nxstate == NextState(b1)
      ensures datalen == if LenCode(b1) < 126 then LenCode(b1) else old(datalen)
      ensures state == (if HdrLen(b1) != 2 then Gather else HOk)
      ensures gathlen == if HdrLen(b1) != 2 then HdrLen(b1) else old(gathlen)
      ensures nbuf == old(nbuf) && inp == old(inp) && out == old(out) && server == old(server)
      ensures mask == old(mask) && maskPos == old(maskPos) && frameCont == old(frameCont)
    {
      var more := HdrLen(b1) != 2;
      op, cont, maskOff, nxstate := Op(b0), !FinBit(b0), MaskOff(b1), NextState(b1);
      if LenCode(b1) < 126 {
        datalen := LenCode(b1);
      }
      if more {
        state, gathlen := Gather, HdrLen(b1);
      } else {
        state := HOk;
      }
    }

    lemma FirstTwoDone(h: seq<byte>, fc: bool)
      requires HdrCommon(h, fc) && nbuf == 2 && HdrKnown(h)
      requires state == Gather || state == HOk
      requires state == Gather ==> gathlen == HdrLen(h[1]) && nbuf < gathlen && nxstate == NextState(h[1])
      requires state == HOk ==> nbuf == HdrLen(h[1]) && datalen == PayloadLen(h)
      ensures HdrInv(h, fc)
    {
    }

    /** The R_HLEN2 and R_HLEN8 states: read the extended payload length;
        a 64-bit length must have its top byte clear. */
    method LenStep(ghost h: seq<byte>, ghost fc: bool) returns (err: bool)
      requires (state == HLen2 || state == HLen8) && HdrInv(h, fc)
      modifies this
      ensures server == old(server) && out == old(out) && mask == old(mask) && nbuf == old(nbuf)
      ensures err ==> Outcome(h, fc, server, RErr, false)
      ensures !err ==> HdrInv(h, fc) && state == HOk
    {
      assert h[..nbuf] == buf[..nbuf];
      assert h[2] == buf[2] && h[3] == buf[3];
      if state == HLen2 {
        datalen := Be16(buf[..nbuf], 2);
      } else {
        if buf[2] != 0 {
          return true;
        }
        datalen := Be64(buf[..nbuf], 2);
      }
      state := HOk;
      return false;
    }

    /** The R_HDR checks failed, so the header is rejected. */
    lemma RejectedEarly(h: seq<byte>, fc: bool)
      requires buf.Length == BufSize && nbuf <= MaxHdr && |mask| == 4
      requires |h| >= 2 && !FirstTwoOk(h[0], h[1], fc, server) && state == Hdr
      ensures Outcome(h, fc, server, RErr, false)
    {
    }

    /** How the header states end for h: undecided with everything
        gathered, rejected, or decoded with the reader in the payload
        state. */
    ghost predicate Outcome(h: seq<byte>, fc: bool, srv: bool, r: WsResult, body: bool)
      reads this, buf
    {
      var d := DecodeHeader(h, fc, srv);
      && buf.Length == BufSize && nbuf <= MaxHdr && |mask| == 4
      && (d.NeedMore? ==> !body && r == RMore && inp == [] && buf[..nbuf] == h && state == Gather && Valid())
      && (d.Reject? ==> !body && r == RErr && state != Gather)
      && (d.Header? ==> Taken(d, h) && (body <==> d.op == OpCont) && (!body ==> r == RMsg))
    }

    /** The reader holds the decoded header d of h and is in the payload state. */
    ghost predicate Taken(d: Decoded, h: seq<byte>)
      reads this
    {
      && d.Header? && state == Body && nbuf <= MaxHdr && |mask| == 4 && maskPos == 0
      && op == d.op && cont == !d.fin && datalen == d.datalen
      && (maskOff != 0 <==> d.masked) && (d.masked ==> mask == d.key)
      && d.len <= |h| && inp == h[d.len..]
    }

    /** The R_HOK state: take the masking key and enter the payload state. */
    method TakeHeader(ghost h: seq<byte>, ghost fc: bool) returns (body: bool)
      requires state == HOk && HdrInv(h, fc)
      modifies this
      ensures server == old(server) && out == old(out)
      ensures Outcome(h, fc, server, if body then RMore else RMsg, body)
    {
      if maskOff != 0 {
        mask := buf[maskOff..maskOff + 4];
      }
      state := Body;
      maskPos := 0;
      assert h[..nbuf] == buf[..nbuf] && h[nbuf..] == inp;
      assert maskOff != 0 ==> h[maskOff..maskOff + 4] == buf[maskOff..maskOff + 4];
      body := op == OpCont;
    }

    /** The header states of ffwebskt_parse: the gathered bytes followed
        by the input are decoded as one header. Once it is complete the
        reader is in the payload state; body says whether the payload step
        follows in the same call, as it does for a continuation frame. */
    method ReadHeader() returns (r: WsResult, body: bool)
      requires Valid() && state != Body
      modifies this, buf
      ensures server == old(server) && out == old(out) && |mask| == 4
      ensures buf.Length == BufSize && nbuf <= MaxHdr
      ensures Outcome(old(buf[..nbuf]) + old(inp), old(frameCont), old(server), r, body)
    {
      ghost var h := buf[..nbuf] + inp;
      ghost var fc := frameCont;
      if state == Init {
        state, nxstate, gathlen := Gather, Hdr, 2;
      }
      while true
        invariant HdrInv(h, fc)
        invariant server == old(server) && out == old(out)
        decreases Rank()
      {
        var stop;
        stop, r, body := Step(h, fc);
        if stop {
          return;
        }
      }
    }

    /** One pass of the for (;;) switch (state) loop of ffwebskt_parse
        over the header states. */
    method Step(ghost h: seq<byte>, ghost fc: bool) returns (stop: bool, r: WsResult, body: bool)
      requires HdrInv(h, fc)
      modifies this, buf
      ensures server == old(server) && out == old(out)
      ensures stop ==> Outcome(h, fc, server, r, body)
      ensures !stop ==> HdrInv(h, fc) && Rank() < old(Rank())
    {
      if state == Gather {
        var more := GatherStep(h, fc);
        return more, RMore, false;
      } else if state == Hdr {
        // R_HDR: reserved bits set, an opcode that does not fit the
        // fragmentation state, or an unmasked frame sent to a server
        if !FirstTwoOk(buf[0], buf[1], cont, server) {
          op := Op(buf[0]);
          RejectedEarly(h, fc);
          return true, RErr, false;
        }
        HdrStep(h, fc);
        return false, RErr, false;
      } else if state == HLen2 || state == HLen8 {
        var err := LenStep(h, fc);
        return err, RErr, false;
      } else {
        body := TakeHeader(h, fc);
        return true, if body then RMore else RMsg, body;
      }
    }

    /** ffwebskt_parse. In the header states, the gathered bytes together
        with the new input are decoded as one header; a continuation
        frame's header is followed by its first payload step in the same
        call. In the payload state, one payload step is taken. After RErr
        the reader is not to be used again. */
    method Parse() returns (r: WsResult)
      requires Valid()
      modifies this, buf
      ensures server == old(server) && |mask| == 4
      ensures r != RErr ==> Valid()
      ensures old(state) == Body ==>
                BodyAfter(BodyStep(old(datalen), old(inp), old(maskOff) != 0, old(mask), old(maskPos)), r, old(out))
      ensures old(state) != Body ==>
                var h := old(buf[..nbuf]) + old(inp);
                var d := DecodeHeader(h, old(frameCont), old(server));
                && (d.NeedMore? ==> r == RMore && inp == [] && buf[..nbuf] == h && state == Gather)
                && (d.Reject? ==> r == RErr)
                && (d.Header? ==> op == d.op && cont == !d.fin && (maskOff != 0 <==> d.masked)
                                  && (d.masked ==> mask == d.key))
                && (d.Header? && d.op != OpCont ==>
                      r == RMsg && state == Body && datalen == d.datalen && inp == h[d.len..] && maskPos == 0)
                && (d.Header? && d.op == OpCont ==>
                      BodyAfter(BodyStep(d.datalen, h[d.len..], d.masked, mask, 0), r, old(out)))
    {
      if state == Body {
        r := ReadBody();
        return;
      }
      var body;
      r, body := ReadHeader();
      if body {
        r := ReadBody();
      }
    }
  }

  /** ffwebskt_accept_ver: 0 for the one supported protocol version "13",
      -1 for any other. */
  function AcceptVer(ver: seq<byte>): (r: int)
    ensures r == 0 || r == -1
    ensures r == 0 <==> |ver| == 2 && ver[0] == 0x31 && ver[1] == 0x33
  {
    if ver == Ascii("13") then 0 else -1
  }

  /** Is a 4-byte masking key in effect? A zero key means no masking. */
  predicate Masking(key: seq<byte>)
  {
    key != [0, 0, 0, 0]
  }

  /** The header ffwebskt_newmsg writes for a final frame of opcode op
      with len payload bytes: the length code with the 2- or 8-byte
      extended length it announces, then the key when masking. */
  function NewMsgHeader(len: nat, key: seq<byte>, op: nat): (h: seq<byte>)
    requires |key| == 4 && op < 16 && len <= MaxMsg
    ensures 2 <= |h| <= MaxHdr
  {
    var m := if Masking(key) then 0x80 else 0;
    (if len < MaxMsg1 then [0x80 + op, m + len]
     else if len <= MaxMsg2 then [0x80 + op, m + 126] + ToBe16(len)
     else [0x80 + op, m + 127] + ToBe64(len))
    + (if Masking(key) then key else [])
  }

  /** The top byte of an 8-byte length field is clear for every length
      up to MaxMsg. */
  lemma TopByteClear(len: nat)
    requires len <= MaxMsg
    ensures ToBe64(len)[0] == 0
  {
    var hi := len / 0x1_0000_0000;
    assert hi < 0x100_0000;
    assert ToBe64(len)[..4] == ToBe32(hi);
    assert ToBe32(hi)[..2] == ToBe16(hi / 0x1_0000);
    assert hi / 0x1_0000 < 0x100;
  }

  /** The first two header bytes ffwebskt_newmsg writes decode to its
      opcode, FIN, its length code and the masking flag. */
  lemma FirstTwoFields(op: nat, m: nat, lc: nat)
    requires op < 16 && (m == 0 || m == 0x80) && lc < 0x80
    ensures Op(0x80 + op) == op && FinBit(0x80 + op) && Rsv(0x80 + op) == 0
    ensures LenCode(m + lc) == lc && (MaskBit(m + lc) <==> m == 0x80)
  {
  }

  /** A frame header from ffwebskt_newmsg, followed by anything, decodes
      to a final frame of the same opcode, length and key, on a reader
      expecting a new message (or a continuation frame when op is 0), and
      on a server when the frame is masked. */
  lemma NewMsgHeaderDecodes(len: nat, key: seq<byte>, op: nat, server: bool, rest: seq<byte>)
    requires |key| == 4 && op < 16 && len <= MaxMsg
    requires server ==> Masking(key)
    ensures var h := NewMsgHeader(len, key, op);
            DecodeHeader(h + rest, op == OpCont, server)
              == Header(|h|, true, op, len, Masking(key), if Masking(key) then key else [])
  {
    var h := NewMsgHeader(len, key, op);
    NewMsgFirstTwo(len, key, op, server);
    if len < MaxMsg1 {
      DecodesShort(len, key, op, server);
    } else if len <= MaxMsg2 {
      Decodes16(len, key, op, server);
    } else {
      Decodes64(len, key, op, server);
    }
    DecodePrefix(h, rest, op == OpCont, server);
  }

  /** The first two bytes ffwebskt_newmsg writes pass the reader's checks
      and announce the header's own length. */
  lemma NewMsgFirstTwo(len: nat, key: seq<byte>, op: nat, server: bool)
    requires |key| == 4 && op < 16 && len <= MaxMsg
    requires server ==> Masking(key)
    ensures var h := NewMsgHeader(len, key, op);
            && FirstTwoOk(h[0], h[1], op == OpCont, server) && HdrLen(h[1]) == |h|
            && LenCode(h[1]) == (if len < MaxMsg1 then len else if len <= MaxMsg2 then 126 else 127)
            && FinBit(h[0]) && Op(h[0]) == op && (MaskBit(h[1]) <==> Masking(key))
  {
    var h := NewMsgHeader(len, key, op);
    var m := if Masking(key) then 0x80 else 0;
    var lc := if len < MaxMsg1 then len else if len <= MaxMsg2 then 126 else 127;
    assert h[0] == 0x80 + op && h[1] == m + lc;
    FirstTwoFields(op, m, lc);
  }

  /** The short length case of NewMsgHeaderDecodes, without the suffix. */
  lemma DecodesShort(len: nat, key: seq<byte>, op: nat, server: bool)
    requires |key| == 4 && op < 16 && len < MaxMsg1
    requires server ==> Masking(key)
    requires var h := NewMsgHeader(len, key, op);
             FirstTwoOk(h[0], h[1], op == OpCont, server) && HdrLen(h[1]) == |h| && LenCode(h[1]) == len
             && FinBit(h[0]) && Op(h[0]) == op && (MaskBit(h[1]) <==> Masking(key))
    ensures var h := NewMsgHeader(len, key, op);
            DecodeHeader(h, op == OpCont, server)
              == Header(|h|, true, op, len, Masking(key), if Masking(key) then key else [])
  {
    var h := NewMsgHeader(len, key, op);
    if Masking(key) {
      assert h[2..6] == key;
    }
  }

  /** The 16-bit length case of NewMsgHeaderDecodes, without the suffix. */
  lemma Decodes16(len: nat, key: seq<byte>, op: nat, server: bool)
    requires |key| == 4 && op < 16 && MaxMsg1 <= len <= MaxMsg2
    requires server ==> Masking(key)
    requires var h := NewMsgHeader(len, key, op);
             FirstTwoOk(h[0], h[1], op == OpCont, server) && HdrLen(h[1]) == |h| && LenCode(h[1]) == 126
             && FinBit(h[0]) && Op(h[0]) == op && (MaskBit(h[1]) <==> Masking(key))
    ensures var h := NewMsgHeader(len, key, op);
            DecodeHeader(h, op == OpCont, server)
              == Header(|h|, true, op, len, Masking(key), if Masking(key) then key else [])
  {
    var h := NewMsgHeader(len, key, op);
    assert h[2..4] == ToBe16(len);
    assert Be16(h, 2) == Be16(ToBe16(len), 0);
    if Masking(key) {
      assert h[4..8] == key;
    }
  }

  /** The 64-bit length case of NewMsgHeaderDecodes, without the suffix. */
  lemma Decodes64(len: nat, key: seq<byte>, op: nat, server: bool)
    requires |key| == 4 && op < 16 && MaxMsg2 < len <= MaxMsg
    requires server ==> Masking(key)
    requires var h := NewMsgHeader(len, key, op);
             FirstTwoOk(h[0], h[1], op == OpCont, server) && HdrLen(h[1]) == |h| && LenCode(h[1]) == 127
             && FinBit(h[0]) && Op(h[0]) == op && (MaskBit(h[1]) <==> Masking(key))
    ensures var h := NewMsgHeader(len, key, op);
            DecodeHeader(h, op == OpCont, server)
              == Header(|h|, true, op, len, Masking(key), if Masking(key) then key else [])
  {
    var h := NewMsgHeader(len, key, op);
    var e := ToBe64(len);
    assert h[2..10] == e;
    TopByteClear(len);
    assert Be64(h, 2) == Be64(e, 0) by {
      assert forall k :: 0 <= k < 8 ==> h[2 + k] == e[k];
    }
    if Masking(key) {
      assert h[10..14] == key;
    }
  }

  /** As written, ffwebskt_newmsg stores a 16- or 64-bit length after the
      first two bytes but leaves the length code 126 or 127 out of byte 1,
      so the length code reads 0. */
  function NewMsgHeaderAsWritten(len: nat, key: seq<byte>, op: nat): (h: seq<byte>)
    requires |key| == 4 && op < 16 && len <= MaxMsg
  {
    var m := if Masking(key) then 0x80 else 0;
    (if len < MaxMsg1 then [0x80 + op, m + len]
     else if len <= MaxMsg2 then [0x80 + op, m] + ToBe16(len)
     else [0x80 + op, m] + ToBe64(len))
    + (if Masking(key) then key else [])
  }

  /** A 200-byte unmasked text message gets the header 81 00 00 c8, which
      a reader decodes as an empty 2-byte-header frame, taking the length
      bytes for the start of the payload stream. */
  lemma LengthMarkerLostAsWritten()
    ensures NewMsgHeaderAsWritten(200, [0, 0, 0, 0], OpText) == [0x81, 0x00, 0x00, 0xc8]
    ensures DecodeHeader(NewMsgHeaderAsWritten(200, [0, 0, 0, 0], OpText), false, false)
              == Header(2, true, OpText, 0, false, [])
    ensures DecodeHeader(NewMsgHeader(200, [0, 0, 0, 0], OpText), false, false)
              == Header(4, true, OpText, 200, false, [])
  {
    NewMsgHeaderDecodes(200, [0, 0, 0, 0], OpText, false, []);
    assert NewMsgHeader(200, [0, 0, 0, 0], OpText) + [] == NewMsgHeader(200, [0, 0, 0, 0], OpText);
  }

  /** Result of one ffwebskt_writenext call. */
  datatype WriteOut = WriteOut(r: WsResult, chunk: seq<byte>, rest: seq<byte>)

  /** One writer step on the payload still to send: RDataFin once it is
      used up, otherwise the next chunk, masked into the buffer (at most
      one buffer's worth, each chunk from key byte 0) or the whole rest
      unmasked. */
  function WriteStep(input: seq<byte>, key: seq<byte>): (w: WriteOut)
    requires |key| == 4
    ensures w.r == RDataFin <==> input == []
    ensures w.r != RDataFin ==> w.r == RData && 0 < |w.chunk|
    ensures w.r == RData ==> |w.rest| < |input| && |w.rest| + |w.chunk| == |input|
    ensures Masking(key) && w.r == RData ==> |w.chunk| <= BufSize
  {
    if input == [] then WriteOut(RDataFin, [], [])
    else if Masking(key) then
      var n := Min(|input|, BufSize);
      WriteOut(RData, XorFrom(input[..n], key, 0), input[n..])
    else WriteOut(RData, input, [])
  }

  /** Everything the writer hands out for a payload, chunk after chunk,
      until RDataFin. */
  function WriterOutput(input: seq<byte>, key: seq<byte>): seq<byte>
    requires |key| == 4
    decreases |input|
  {
    var w := WriteStep(input, key);
    if w.r == RDataFin then [] else w.chunk + WriterOutput(w.rest, key)
  }

  /** The writer's chunks make up the masked payload (RFC 6455 section
      5.3): restarting the key at byte 0 for each chunk is harmless
      because every chunk but the last is 4096 bytes, a multiple of 4. */
  lemma {:induction false} WriterOutputMasks(input: seq<byte>, key: seq<byte>)
    requires |key| == 4
    ensures WriterOutput(input, key) == if Masking(key) then XorFrom(input, key, 0) else input
    decreases |input|
  {
    if input == [] {
    } else if !Masking(key) {
      assert WriterOutput(input, key) == input + WriterOutput([], key);
    } else {
      var n := Min(|input|, BufSize);
      WriterOutputMasks(input[n..], key);
      WriterOutputJoin(input, key, n);
    }
  }

  /** The inductive step of WriterOutputMasks: if the rest after the first
      chunk comes out masked, so does the whole payload. */
  lemma WriterOutputJoin(input: seq<byte>, key: seq<byte>, n: nat)
    requires |key| == 4 && input != [] && Masking(key) && n == Min(|input|, BufSize)
    requires WriterOutput(input[n..], key) == XorFrom(input[n..], key, 0)
    ensures WriterOutput(input, key) == XorFrom(input, key, 0)
  {
    WriterOutputStep(input, key);
    JoinChunk(input[..n], input[n..], key);
    assert input[..n] + input[n..] == input;
  }

  /** One masked writer step, unfolded. */
  lemma WriterOutputStep(input: seq<byte>, key: seq<byte>)
    requires |key| == 4 && input != [] && Masking(key)
    ensures var n := Min(|input|, BufSize);
            WriterOutput(input, key) == XorFrom(input[..n], key, 0) + WriterOutput(input[n..], key)
  {
  }

  /** Masking a chunk from key byte 0 and the rest from key byte 0 is
      masking both at once when the chunk is a whole number of key
      cycles or nothing follows it. */
  lemma JoinChunk(a: seq<byte>, rest: seq<byte>, key: seq<byte>)
    requires |key| == 4 && (|a| == BufSize || rest == [])
    ensures XorFrom(a, key, 0) + XorFrom(rest, key, 0) == XorFrom(a + rest, key, 0)
  {
    XorFromSplit(a, rest, key, 0);
    if rest != [] {
      assert (0 + |a|) % 4 == 0;
    }
  }

  /** End to end: a reader that decodes the header of a frame the writer
      produced and unmasks the bytes that follow it gets the payload back. */
  lemma WriterReaderRoundTrip(payload: seq<byte>, key: seq<byte>, op: nat, server: bool)
    requires |key| == 4 && op < 16 && |payload| <= MaxMsg
    requires server ==> Masking(key)
    ensures var frame := NewMsgHeader(|payload|, key, op) + WriterOutput(payload, key);
            var d := DecodeHeader(frame, op == OpCont, server);
            && d.Header? && d.fin && d.op == op && d.datalen == |payload| && d.len + |payload| == |frame|
            && (if d.masked then XorFrom(frame[d.len..], d.key, 0) else frame[d.len..]) == payload
  {
    var h := NewMsgHeader(|payload|, key, op);
    var body := WriterOutput(payload, key);
    NewMsgHeaderDecodes(|payload|, key, op, server, body);
    WriterOutputMasks(payload, key);
    assert (h + body)[|h|..] == body;
    if Masking(key) {
      XorFromInvolutive(payload, key, 0);
    }
  }

  /** Unmasking six bytes from key byte 0, written out. */
  lemma XorFromSix(p: seq<byte>, key: seq<byte>)
    requires |p| == 6 && |key| == 4
    ensures XorFrom(p, key, 0) == [Xor(p[0], key[0]), Xor(p[1], key[1]), Xor(p[2], key[2]),
                                   Xor(p[3], key[3]), Xor(p[4], key[0]), Xor(p[5], key[1])]
  {
    assert XorFrom(p[5..], key, 5) == [Xor(p[5], key[1])];
    assert XorFrom(p[4..], key, 4) == [Xor(p[4], key[0])] + XorFrom(p[5..], key, 5);
    assert XorFrom(p[3..], key, 3) == [Xor(p[3], key[3])] + XorFrom(p[4..], key, 4);
    assert XorFrom(p[2..], key, 2) == [Xor(p[2], key[2])] + XorFrom(p[3..], key, 3);
    assert XorFrom(p[1..], key, 1) == [Xor(p[1], key[1])] + XorFrom(p[2..], key, 2);
  }

  /** The reader test vector: a masked text frame carrying "mydata" is
      undecided after 3 bytes and decoded after 12. */
  lemma ReaderExampleHeader()
    ensures var frame: seq<byte> := [0x81, 0x86, 0xe5, 0x17, 0xb1, 0x29, 0x88, 0x6e, 0xd5, 0x48, 0x91, 0x76];
            && DecodeHeader(frame[..3], false, true) == NeedMore
            && DecodeHeader(frame, false, true) == Header(6, true, OpText, 6, true, [0xe5, 0x17, 0xb1, 0x29])
  {
    var frame: seq<byte> := [0x81, 0x86, 0xe5, 0x17, 0xb1, 0x29, 0x88, 0x6e, 0xd5, 0x48, 0x91, 0x76];
    assert frame[2..6] == [0xe5, 0x17, 0xb1, 0x29];
  }

  /** The payload of the reader test vector unmasks to "mydata". */
  lemma ReaderExamplePayload()
    ensures XorFrom([0x88, 0x6e, 0xd5, 0x48, 0x91, 0x76], [0xe5, 0x17, 0xb1, 0x29], 0)
              == [0x6d, 0x79, 0x64, 0x61, 0x74, 0x61]
  {
    XorFromSix([0x88, 0x6e, 0xd5, 0x48, 0x91, 0x76], [0xe5, 0x17, 0xb1, 0x29]);
    assert Xor(0x88, 0xe5) == 0x6d && Xor(0x6e, 0x17) == 0x79 && Xor(0xd5, 0xb1) == 0x64;
    assert Xor(0x48, 0x29) == 0x61 && Xor(0x91, 0xe5) == 0x74 && Xor(0x76, 0x17) == 0x61;
  }

  /** The writer test vector: "12" as an unmasked text message is the
      header 81 02 followed by "12" in one chunk. */
  lemma WriterExample()
    ensures NewMsgHeader(2, [0, 0, 0, 0], OpText) == [0x81, 0x02]
    ensures WriteStep(Ascii("12"), [0, 0, 0, 0]) == WriteOut(RData, Ascii("12"), [])
    ensures WriteStep([], [0, 0, 0, 0]).r == RDataFin
  {
  }

  /** ffwebskt_cook: the frame writer. */
  class Writer {
    var inp: seq<byte>
    var out: seq<byte>
    var mask: seq<byte>
    const buf: array<byte>

    ghost predicate Valid()
      reads this
    {
      buf.Length == BufSize && |mask| == 4
    }

    /** A zeroed writer. */
    constructor ()
      ensures Valid() && inp == [] && out == [] && mask == [0, 0, 0, 0] && fresh(buf)
    {
      inp, out, mask := [], [], [0, 0, 0, 0];
      buf := new byte[BufSize];
    }

    /** ffwebskt_input: set the payload to send. */
    method Input(data: seq<byte>)
      requires Valid()
      modifies this
      ensures Valid() && inp == data && mask == old(mask) && out == old(out)
    {
      inp := data;
    }

    /** Copy bytes into the start of the buffer. */
    method Fill(data: seq<byte>)
      requires buf.Length == BufSize && |data| <= BufSize
      modifies buf
      ensures buf[..|data|] == data
    {
      forall k | 0 <= k < |data| {
        buf[k] := data[k];
      }
    }

    /** ffwebskt_newmsg: build the header of a final frame of opcode op
        for the whole payload set by Input, masked with key unless the key
        is zero, into the buffer; RErr when the payload is longer than a
        frame can announce. */
    method NewMsg(key: seq<byte>, op: nat) returns (r: WsResult)
      requires Valid() && |key| == 4 && op < 16
      modifies this, buf
      ensures Valid() && inp == old(inp)
      ensures r == RErr <==> |old(inp)| > MaxMsg
      ensures r == RErr ==> out == old(out) && mask == old(mask)
      ensures r != RErr ==> r == RData && out == NewMsgHeader(|inp|, key, op) && mask == key
    {
      if |inp| > MaxMsg {
        return RErr;
      }
      var h := NewMsgHeader(|inp|, key, op);
      Fill(h);
      mask := key;
      out := buf[..|h|];
      return RData;
    }

    /** ffwebskt_writenext: hand out the next chunk of the payload. */
    method WriteNext() returns (r: WsResult)
      requires Valid()
      modifies this, buf
      ensures Valid() && mask == old(mask)
      ensures var w := WriteStep(old(inp), mask);
              r == w.r && inp == w.rest && (r == RData ==> out == w.chunk) && (r != RData ==> out == old(out))
    {
      if |inp| == 0 {
        return RDataFin;
      }
      if Masking(mask) {
        var n := Min(|inp|, BufSize);
        Fill(XorFrom(inp[..n], mask, 0));
        out := buf[..n];
        inp := inp[n..];
        return RData;
      }
      out := inp;
      inp := [];
      return RData;
    }
  }
}
