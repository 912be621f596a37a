/** SOCKS version 4 client messages: the 9-byte CONNECT request with an
    empty user id, and the 8-byte reply. */
module Socks4 {
  import opened Bytes

  const Version: byte := 4
  const CmdConnect: byte := 1
  const CmdBind: byte := 2
  const Granted: byte := 0x5a

  /** Request image size: version, command, port[2], ip[4], id terminator. */
  const ReqSize: nat := 9
  /** Reply size: vn, rcode, bind_port[2], bind_ip[4]. */
  const RespSize: nat := 8

  /** socks4_req_write: fill the first 9 bytes of buf with a CONNECT
      request for ip:port; the port is narrowed to 16 bits and written in
      network order, and the user id is the empty string. */
  method ReqWrite(buf: array<byte>, ip: seq<byte>, port: u32)
    requires buf.Length >= ReqSize && |ip| == 4
    modifies buf
    ensures buf[0] == Version && buf[1] == CmdConnect
    ensures Be16(buf[..], 2) == port % 0x1_0000
    ensures buf[4..8] == ip
    ensures buf[8] == 0
    ensures buf[ReqSize..] == old(buf[ReqSize..])
  {
    var p := port % 0x1_0000;
    buf[0] := Version;
    buf[1] := CmdConnect;
    buf[2] := p / 0x100;
    buf[3] := p % 0x100;
    buf[4] := ip[0];
    buf[5] := ip[1];
    buf[6] := ip[2];
    buf[7] := ip[3];
    buf[8] := 0;
  }

  /** socks4_resp_read: 0 while fewer than 8 bytes have arrived, 1 when
      the reply grants the request with vn 0 and an all-zero bound
      address, -1 for any other complete reply. */
  function RespRead(buf: seq<byte>, n: nat): (r: int)
    requires n <= |buf|
    ensures r == 0 <==> n < RespSize
    ensures r == 1 <==> n >= RespSize && buf[0] == 0 && buf[1] == Granted
                        && (forall i :: 2 <= i < RespSize ==> buf[i] == 0)
    ensures r == 0 || r == 1 || r == -1
  {
    if n < RespSize then 0
    else if buf[0] == 0 && buf[1] == Granted && Be16(buf, 2) == 0
            && Be16(buf, 4) == 0 && Be16(buf, 6) == 0 then 1
    else -1
  }

  /** Bytes after the 8-byte reply never change its verdict. */
  lemma RespReadIgnoresTrailing(a: seq<byte>, n: nat, b: seq<byte>, m: nat)
    requires n <= |a| && m <= |b| && n >= RespSize && m >= RespSize
    requires a[..RespSize] == b[..RespSize]
    ensures RespRead(a, n) == RespRead(b, m)
  {
    assert forall i :: 0 <= i < RespSize ==> a[i] == a[..RespSize][i];
    assert forall i :: 0 <= i < RespSize ==> b[i] == b[..RespSize][i];
  }
}
