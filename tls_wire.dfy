/** The wire layer of the TLS handshake reader: length-prefixed fields,
    records (section 6.2.1 of RFC 5246), handshake messages (section 7.4
    of RFC 5246), the client and server hello, and the extensions the
    reader interprets: server_name (section 3 of RFC 6066), ALPN (section
    3.1 of RFC 7301) and supported_versions (section 4.2.1 of RFC 8446).

    The C readers advance a view (pointer and length) in place; here each
    reader takes the view and returns what it found together with the
    view as it leaves it. A field of the reader's object that a reader
    sets only on some paths is returned as an Option: None means "left as
    it was". Beside each reader is the encoder of the same wire form and
    a lemma that reading an encoded value gives it back. */
module TlsWire {
  import opened Bytes

  /** Error codes (enum FFTLS_E); the reader stores them negated. */
  const EData: int := 0
  const EVersion: int := 1
  const ENotSupp: int := 2

  /** Reader results (enum FFTLS_R). */
  const RErr: int := 1
  const RMore: int := 2
  const RClientHello: int := 3
  const RClientHelloSni: int := 4
  const RHelloAlpn: int := 5
  const RServerHello: int := 6
  const RCert: int := 7
  const RKeyExch: int := 8
  const RCertReq: int := 9
  const RServHelloDone: int := 10
  const RDone: int := 11

  /** Record content types and handshake message types. */
  const RtAlert: byte := 21
  const RtHandshake: byte := 22
  const HsClientHello: nat := 1
  const HsServerHello: nat := 2
  const HsCertificate: nat := 11
  const HsServerKeyExchange: nat := 12
  const HsCertificateRequest: nat := 13
  const HsServerHelloDone: nat := 14

  /** Extension types and the host_name entry type of server_name. */
  const ExtServerName: nat := 0
  const ExtAlpn: nat := 16
  const ExtSuppVers: nat := 43
  const SnHostName: byte := 0

  /** Record header: type, version, 16-bit length. */
  const RecHdr: nat := 5
  /** Handshake header: type, 24-bit length. */
  const HsHdr: nat := 4
  /** Fixed part of a client or server hello: version, 32 random bytes
      and the session ID length byte. */
  const HelloFixed: nat := 35
  /** Extension header: type, 16-bit length. */
  const ExtHdr: nat := 4

  // ---------------------------------------------------------------- lengths

  /** The largest value a w-byte length can hold, plus one. */
  function Cap(w: nat): nat
    requires 1 <= w <= 3
  {
    if w == 1 then 0x100 else if w == 2 then 0x1_0000 else 0x100_0000
  }

  /** The w-byte big-endian value at the start of data. */
  function BeW(data: seq<byte>, w: nat): (v: nat)
    requires 1 <= w <= 3 && w <= |data|
    ensures v < Cap(w)
  {
    if w == 1 then data[0] else if w == 2 then Be16(data, 0) else Be24(data, 0)
  }

  /** The w-byte big-endian encoding of n. */
  function LenPrefix(n: nat, w: nat): (r: seq<byte>)
    requires 1 <= w <= 3 && n < Cap(w)
    ensures |r| == w && BeW(r, w) == n
  {
    if w == 1 then [n] else if w == 2 then ToBe16(n) else ToBe24(n)
  }

  /** What datalen8/16/24 report: the length n, or -1, and the view. */
  datatype Taken = Taken(n: int, rest: seq<byte>)

  /** Is the view too short for a w-byte length or for the body it declares? */
  predicate LenFails(data: seq<byte>, w: nat)
    requires 1 <= w <= 3
  {
    |data| < w || w + BeW(data, w) > |data|
  }

  /** datalen8 (w = 1), datalen16 (w = 2), datalen24 (w = 3). */
  function DataLen(data: seq<byte>, w: nat): (t: Taken)
    requires 1 <= w <= 3
    ensures t.n == -1 <==> LenFails(data, w)
    ensures t.n == -1 ==> t.rest == data
    ensures t.n != -1 ==> 0 <= t.n <= |t.rest| && t.n < Cap(w) && t.rest == data[w..]
                          && data[..w] == LenPrefix(t.n, w)
  {
    if w > |data| then Taken(-1, data)
    else
      var n := BeW(data, w);
      if w + n > |data| then Taken(-1, data)
      else
        assert data[..w] == LenPrefix(n, w) by { LenPrefixUnique(data[..w], w); }
        Taken(n, data[w..])
  }

  /** A w-byte field is the encoding of its value. */
  lemma LenPrefixUnique(p: seq<byte>, w: nat)
    requires 1 <= w <= 3 && |p| == w
    ensures p == LenPrefix(BeW(p, w), w)
  {
    if w == 1 {
      assert p == [p[0]];
    } else if w == 2 {
      Prefix16Unique(p);
    } else {
      Prefix24Unique(p);
    }
  }

  lemma Prefix16Unique(p: seq<byte>)
    requires |p| == 2
    ensures p == ToBe16(Be16(p, 0))
  {
    var q := ToBe16(Be16(p, 0));
    assert q[0] == p[0] && q[1] == p[1];
  }

  lemma Prefix24Unique(p: seq<byte>)
    requires |p| == 3
    ensures p == ToBe24(Be24(p, 0))
  {
    var v := Be24(p, 0);
    assert v / 0x1_0000 == p[0] && v % 0x1_0000 == Be16(p[1..], 0);
    Prefix16Unique(p[1..]);
    assert p == [p[0]] + p[1..];
  }

  /** Reading a length prefix in front of its body gives the body's length
      and leaves the view at the body. */
  lemma DataLenPrefixed(body: seq<byte>, rest: seq<byte>, w: nat)
    requires 1 <= w <= 3 && |body| < Cap(w)
    ensures DataLen(LenPrefix(|body|, w) + body + rest, w) == Taken(|body|, body + rest)
  {
    var p := LenPrefix(|body|, w);
    var data := p + (body + rest);
    assert data == LenPrefix(|body|, w) + body + rest;
    PrefixedFields(p, body + rest, w);
  }

  /** The w-byte value at the start of p + t is read from p alone. */
  lemma PrefixedFields(p: seq<byte>, t: seq<byte>, w: nat)
    requires 1 <= w <= 3 && |p| == w
    ensures BeW(p + t, w) == BeW(p, w) && (p + t)[w..] == t
  {
    var data := p + t;
    assert data[..w] == p;
    if w == 2 {
      assert data[0] == p[0] && data[1] == p[1];
    } else if w == 3 {
      assert data[0] == p[0] && data[1] == p[1] && data[2] == p[2];
    }
  }

  // ---------------------------------------------------------------- records

  /** What tls_rec_read reports: the result (record type, 0 or -EVERSION),
      the version it stored (None: fewer than 5 bytes), the record body
      (None: not set) and the input view after it. */
  datatype RecOut = RecOut(r: int, version: Option<nat>, body: Option<seq<byte>>, rest: seq<byte>)

  /** The record layer accepts version 3.1 and later versions with major 3. */
  predicate RecVersionOk(v: nat)
  {
    v >= 0x0301 && v / 0x100 == 3
  }

  /** tls_rec_read. The version is stored whenever the header is there,
      also when it is then rejected. */
  function RecRead(data: seq<byte>): (o: RecOut)
    ensures |data| < RecHdr ==> o == RecOut(0, None, None, data)
    ensures |data| >= RecHdr ==> o.version == Some(Be16(data, 1))
    ensures o.r == -EVersion <==> |data| >= RecHdr && !RecVersionOk(Be16(data, 1))
    ensures o.body.Some? <==> |data| >= RecHdr && RecVersionOk(Be16(data, 1))
                              && RecHdr + Be16(data, 3) <= |data|
    ensures o.body.Some? ==> o.r == data[0] && |o.body.value| == Be16(data, 3)
                             && data == data[..RecHdr] + o.body.value + o.rest
    ensures o.body.None? ==> o.rest == data && o.r <= 0
  {
    if |data| < RecHdr then RecOut(0, None, None, data)
    else
      var v := Be16(data, 1);
      if !RecVersionOk(v) then RecOut(-EVersion, Some(v), None, data)
      else
        var n := Be16(data, 3);
        if RecHdr + n > |data| then RecOut(0, Some(v), None, data)
        else
          assert data == data[..RecHdr] + data[RecHdr..RecHdr + n] + data[RecHdr + n..];
          RecOut(data[0], Some(v), Some(data[RecHdr..RecHdr + n]), data[RecHdr + n..])
  }

  /** A TLS record: type, version, 16-bit length, body. */
  function RecordBytes(typ: byte, ver: u16, body: seq<byte>): (r: seq<byte>)
    requires |body| < 0x1_0000
    ensures |r| == RecHdr + |body|
  {
    [typ] + ToBe16(ver) + ToBe16(|body|) + body
  }

  /** Reading an encoded record gives its type, version and body, and
      consumes exactly the record. */
  lemma RecReadRecord(typ: byte, ver: u16, body: seq<byte>, rest: seq<byte>)
    requires RecVersionOk(ver) && |body| < 0x1_0000
    ensures RecRead(RecordBytes(typ, ver, body) + rest)
            == RecOut(typ, Some(ver), Some(body), rest)
  {
    var data := RecordBytes(typ, ver, body) + rest;
    assert data[1..3] == ToBe16(ver) && data[3..5] == ToBe16(|body|);
    assert Be16(data, 1) == Be16(data[1..3], 0);
    assert Be16(data, 3) == Be16(data[3..5], 0);
    assert data[RecHdr..RecHdr + |body|] == body;
    assert data[RecHdr + |body|..] == rest;
  }

  // ---------------------------------------------------------------- alert

  /** The alert record fftls_alert writes: type 21, version 3.1, the
      length (only its low 16 bits fit the field) and the data. */
  function AlertRecord(data: seq<byte>): (r: seq<byte>)
    ensures |r| == RecHdr + |data|
    ensures r[..3] == [RtAlert, 3, 1] && Be16(r, 3) == |data| % 0x1_0000
    ensures r[RecHdr..] == data
  {
    [RtAlert, 3, 1] + ToBe16(|data| % 0x1_0000) + data
  }

  /** An alert that fits the length field is the record of type 21,
      version 3.1 holding the data, so the record reader reads it back. */
  lemma AlertIsRecord(data: seq<byte>, rest: seq<byte>)
    requires |data| < 0x1_0000
    ensures AlertRecord(data) == RecordBytes(RtAlert, 0x0301, data)
    ensures RecRead(AlertRecord(data) + rest) == RecOut(RtAlert, Some(0x0301), Some(data), rest)
  {
    assert ToBe16(0x0301) == [3, 1];
    assert [RtAlert] + ToBe16(0x0301) == [RtAlert, 3, 1];
    RecReadRecord(RtAlert, 0x0301, data, rest);
  }

  /** fftls_alert: write the alert record into buffer[..cap]; -1 when it
      does not fit. */
  method Alert(buffer: array<byte>, cap: nat, data: seq<byte>) returns (r: int)
    requires cap <= buffer.Length
    modifies buffer
    ensures r == -1 <==> cap < RecHdr + |data|
    ensures r == -1 ==> buffer[..] == old(buffer[..])
    ensures r != -1 ==> r == RecHdr + |data| && buffer[..r] == AlertRecord(data)
                        && buffer[r..] == old(buffer[r..])
  {
    if cap < RecHdr + |data| {
      return -1;
    }
    var rec := AlertRecord(data);
    forall i | 0 <= i < |rec| {
      buffer[i] := rec[i];
    }
    r := RecHdr + |data|;
  }

  // ---------------------------------------------------------------- handshake

  /** What tls_hshake_read reports: the type (0 on error), the body (None:
      not set) and the record view after it. */
  datatype HsOut = HsOut(r: int, body: Option<seq<byte>>, rest: seq<byte>)

  /** tls_hshake_read. When the body is incomplete the 4 header bytes are
      already consumed. */
  function HshakeRead(data: seq<byte>): (o: HsOut)
    ensures |data| < HsHdr ==> o == HsOut(0, None, data)
    ensures o.body.Some? <==> |data| >= HsHdr && Be24(data, 1) <= |data| - HsHdr
    ensures |data| >= HsHdr && o.body.None? ==> o.r == 0 && o.rest == data[HsHdr..]
    ensures o.body.Some? ==> o.r == data[0] && |o.body.value| == Be24(data, 1)
                             && data == data[..HsHdr] + o.body.value + o.rest
  {
    if |data| < HsHdr then HsOut(0, None, data)
    else
      var d := data[HsHdr..];
      var n := Be24(data, 1);
      if n > |d| then HsOut(0, None, d)
      else
        assert data == data[..HsHdr] + d[..n] + d[n..];
        HsOut(data[0], Some(d[..n]), d[n..])
  }

  /** A handshake message: type, 24-bit length, body. */
  function HandshakeBytes(typ: byte, body: seq<byte>): (r: seq<byte>)
    requires |body| < 0x100_0000
    ensures |r| == HsHdr + |body|
  {
    [typ] + ToBe24(|body|) + body
  }

  /** Reading an encoded handshake message gives its type and body. */
  lemma HshakeReadMessage(typ: byte, body: seq<byte>, rest: seq<byte>)
    requires |body| < 0x100_0000
    ensures HshakeRead(HandshakeBytes(typ, body) + rest) == HsOut(typ, Some(body), rest)
  {
    var data := HandshakeBytes(typ, body) + rest;
    assert data[1..4] == ToBe24(|body|);
    assert Be24(data, 1) == Be24(data[1..4], 0);
    assert data[HsHdr..] == body + rest;
  }

  // ---------------------------------------------------------------- hello

  /** What the hello readers report: 1, 0 or -EVERSION; the version the
      reader's object ends with; the session ID and cipher list (None: not
      set); and the handshake body view after it. */
  datatype HelloOut = HelloOut(r: int, version: nat, sessionId: Option<seq<byte>>,
                               ciphers: Option<seq<byte>>, rest: seq<byte>)

  /** A hello version is accepted when it is not below the current version
      and its major byte is 3. */
  predicate HelloVersionOk(v: nat, cur: nat)
  {
    v >= cur && v / 0x100 == 3
  }

  /** tls_clihello_read: fixed part, session ID, 16-bit cipher list, 8-bit
      compression list; the view is left at the extensions. */
  function CliHelloRead(data: seq<byte>, cur: nat): (o: HelloOut)
    ensures o.r == 1 || o.r == 0 || o.r == -EVersion
    ensures o.r == -EVersion <==> |data| >= HelloFixed && !HelloVersionOk(Be16(data, 0), cur)
    ensures o.version == if |data| >= HelloFixed && HelloVersionOk(Be16(data, 0), cur)
                         then Be16(data, 0) else cur
    ensures o.version >= cur
    ensures o.r == 1 ==> o.sessionId.Some? && o.ciphers.Some? && |o.rest| < |data|
  {
    if |data| < HelloFixed then HelloOut(0, cur, None, None, data)
    else
      var d := data[HelloFixed..];
      var v := Be16(data, 0);
      if !HelloVersionOk(v, cur) then HelloOut(-EVersion, cur, None, None, d)
      else
        var sid := data[HelloFixed - 1];
        if sid > |d| then HelloOut(0, v, None, None, d)
        else
          var sess, d2 := d[..sid], d[sid..];
          var c := DataLen(d2, 2);
          if c.n < 0 then HelloOut(0, v, Some(sess), None, d2)
          else
            var ciphers, d3 := c.rest[..c.n], c.rest[c.n..];
            var m := DataLen(d3, 1);
            if m.n < 0 then HelloOut(0, v, Some(sess), Some(ciphers), d3)
            else HelloOut(1, v, Some(sess), Some(ciphers), m.rest[m.n..])
  }

  /** A client hello body up to the extensions. */
  function ClientHelloBytes(ver: u16, random: seq<byte>, sid: seq<byte>,
                            ciphers: seq<byte>, comp: seq<byte>): seq<byte>
    requires |random| == 32 && |sid| < 0x100 && |ciphers| < 0x1_0000 && |comp| < 0x100
  {
    ToBe16(ver) + random + [|sid|] + sid + ToBe16(|ciphers|) + ciphers + [|comp|] + comp
  }

  /** Reading an encoded client hello with an acceptable version gives its
      version, session ID and cipher list and stops at the extensions. */
  lemma CliHelloReadEncoded(ver: u16, random: seq<byte>, sid: seq<byte>, ciphers: seq<byte>,
                            comp: seq<byte>, rest: seq<byte>, cur: nat)
    requires |random| == 32 && |sid| < 0x100 && |ciphers| < 0x1_0000 && |comp| < 0x100
    requires HelloVersionOk(ver, cur)
    ensures CliHelloRead(ClientHelloBytes(ver, random, sid, ciphers, comp) + rest, cur)
            == HelloOut(1, ver, Some(sid), Some(ciphers), rest)
  {
    var data := ClientHelloBytes(ver, random, sid, ciphers, comp) + rest;
    var tail := ToBe16(|ciphers|) + ciphers + [|comp|] + comp + rest;
    assert data == ToBe16(ver) + random + [|sid|] + (sid + tail);
    assert Be16(data, 0) == Be16(ToBe16(ver), 0);
    assert data[HelloFixed - 1] == |sid|;
    var d := data[HelloFixed..];
    assert d == sid + tail;
    assert d[..|sid|] == sid && d[|sid|..] == tail;
    assert tail == LenPrefix(|ciphers|, 2) + ciphers + ([|comp|] + comp + rest);
    DataLenPrefixed(ciphers, [|comp|] + comp + rest, 2);
    var c := DataLen(tail, 2);
    assert c.rest[..|ciphers|] == ciphers && c.rest[|ciphers|..] == [|comp|] + comp + rest;
    assert [|comp|] + comp + rest == LenPrefix(|comp|, 1) + comp + rest;
    DataLenPrefixed(comp, rest, 1);
    var m := DataLen(c.rest[|ciphers|..], 1);
    assert m.rest[|comp|..] == rest;
  }

  /** tls_srvhello_read: fixed part, session ID, one cipher suite and one
      compression method. It works on a copy of the view, which it stores
      back only on success. */
  function SrvHelloRead(data: seq<byte>, cur: nat): (o: HelloOut)
    ensures o.r == 1 || o.r == 0 || o.r == -EVersion
    ensures o.r == -EVersion <==> |data| >= HelloFixed && !HelloVersionOk(Be16(data, 0), cur)
    ensures o.version == if |data| >= HelloFixed && HelloVersionOk(Be16(data, 0), cur)
                         then Be16(data, 0) else cur
    ensures o.version >= cur
    ensures o.r != 1 ==> o.rest == data
    ensures o.r == 1 ==> o.sessionId.Some? && o.ciphers.Some? && |o.ciphers.value| == 2
                         && |o.rest| < |data|
  {
    if |data| < HelloFixed then HelloOut(0, cur, None, None, data)
    else
      var d := data[HelloFixed..];
      var v := Be16(data, 0);
      if !HelloVersionOk(v, cur) then HelloOut(-EVersion, cur, None, None, data)
      else
        var sid := data[HelloFixed - 1];
        if sid + 3 > |d| then HelloOut(0, v, None, None, data)
        else HelloOut(1, v, Some(d[..sid]), Some(d[sid..sid + 2]), d[sid + 3..])
  }

  /** A server hello body up to the extensions. */
  function ServerHelloBytes(ver: u16, random: seq<byte>, sid: seq<byte>,
                            cipher: seq<byte>, comp: byte): seq<byte>
    requires |random| == 32 && |sid| < 0x100 && |cipher| == 2
  {
    ToBe16(ver) + random + [|sid|] + sid + cipher + [comp]
  }

  /** Reading an encoded server hello with an acceptable version gives its
      version, session ID and cipher suite and stops at the extensions. */
  lemma SrvHelloReadEncoded(ver: u16, random: seq<byte>, sid: seq<byte>, cipher: seq<byte>,
                            comp: byte, rest: seq<byte>, cur: nat)
    requires |random| == 32 && |sid| < 0x100 && |cipher| == 2
    requires HelloVersionOk(ver, cur)
    ensures SrvHelloRead(ServerHelloBytes(ver, random, sid, cipher, comp) + rest, cur)
            == HelloOut(1, ver, Some(sid), Some(cipher), rest)
  {
    var data := ServerHelloBytes(ver, random, sid, cipher, comp) + rest;
    assert data == ToBe16(ver) + random + [|sid|] + (sid + cipher + [comp] + rest);
    assert Be16(data, 0) == Be16(ToBe16(ver), 0);
    assert data[HelloFixed - 1] == |sid|;
    var d := data[HelloFixed..];
    assert d == sid + cipher + [comp] + rest;
    assert d[..|sid|] == sid && d[|sid|..|sid| + 2] == cipher && d[|sid| + 3..] == rest;
  }

  // ---------------------------------------------------------------- server_name

  /** What tlsext_servname_read reports: 0, RCLIENT_HELLO_SNI or RDONE, and
      the host name it stored (None: not set). */
  datatype SnOut = SnOut(r: int, hostname: Option<seq<byte>>)

  /** The entry guard as written: an entry of length n passes when n does
      not exceed the whole remaining view, its 3-byte header included. */
  predicate NameGuardAsWritten(d: seq<byte>)
    requires |d| >= 3
  {
    Be16(d, 1) <= |d|
  }

  /** The entry guard that keeps the entry's name inside the view. */
  predicate NameGuard(d: seq<byte>)
    requires |d| >= 3
  {
    3 + Be16(d, 1) <= |d|
  }

  /** The walk over server_name entries, with the corrected guard: the
      first host_name entry gives its name, other entry types are skipped,
      and a view shorter than an entry header ends the walk. */
  function NameList(d: seq<byte>): (o: SnOut)
    decreases |d|
    ensures o.r == 0 || o.r == RClientHelloSni || o.r == RDone
    ensures o.r == RClientHelloSni <==> o.hostname.Some?
  {
    if |d| < 3 then SnOut(RDone, None)
    else
      var n := Be16(d, 1);
      if !NameGuard(d) then SnOut(0, None)
      else if d[0] == SnHostName then SnOut(RClientHelloSni, Some(d[3..3 + n]))
      else NameList(d[3 + n..])
  }

  /** tlsext_servname_read with the corrected guard: a 16-bit list length,
      then the entry walk over the rest of the extension. */
  function ServnameRead(data: seq<byte>): (o: SnOut)
    ensures o.r == 0 || o.r == RClientHelloSni || o.r == RDone
    ensures o.r == RClientHelloSni <==> o.hostname.Some?
    ensures LenFails(data, 2) ==> o == SnOut(0, None)
  {
    var t := DataLen(data, 2);
    if t.n < 0 then SnOut(0, None) else NameList(t.rest)
  }

  /** One server_name entry: type, 16-bit length, name. */
  function NameEntry(typ: byte, name: seq<byte>): (r: seq<byte>)
    requires |name| < 0x1_0000
    ensures |r| == 3 + |name|
  {
    [typ] + ToBe16(|name|) + name
  }

  /** A host_name entry gives its name. */
  lemma NameListHost(name: seq<byte>, rest: seq<byte>)
    requires |name| < 0x1_0000
    ensures NameList(NameEntry(SnHostName, name) + rest) == SnOut(RClientHelloSni, Some(name))
  {
    var d := NameEntry(SnHostName, name) + rest;
    assert d[1..3] == ToBe16(|name|);
    assert Be16(d, 1) == Be16(d[1..3], 0);
    assert d[3..3 + |name|] == name;
  }

  /** An entry of another type is skipped. */
  lemma NameListSkips(typ: byte, name: seq<byte>, rest: seq<byte>)
    requires |name| < 0x1_0000 && typ != SnHostName
    ensures NameList(NameEntry(typ, name) + rest) == NameList(rest)
  {
    var d := NameEntry(typ, name) + rest;
    assert d[1..3] == ToBe16(|name|);
    assert Be16(d, 1) == Be16(d[1..3], 0);
    assert d[3 + |name|..] == rest;
  }

  /** The walk of tlsext_servname_read, as a loop over the view. */
  method NameListScan(list: seq<byte>) returns (o: SnOut)
    ensures o == NameList(list)
  {
    var d := list;
    while |d| >= 3
      invariant NameList(d) == NameList(list)
      decreases |d|
    {
      var n := Be16(d, 1);
      if 3 + n > |d| {
        return SnOut(0, None);
      }
      if d[0] == SnHostName {
        return SnOut(RClientHelloSni, Some(d[3..3 + n]));
      }
      d := d[3 + n..];
    }
    return SnOut(RDone, None);
  }

  /** The server name list [0, 3 | 0, 0, 3]: after the list length the view
      is [0, 0, 3], a host_name entry declaring 3 bytes of name with none
      present. The guard as written lets it through, so the name would be
      read from the 3 bytes past the view; the corrected walk reports an
      error. */
  lemma NameOverrunAsWritten()
    ensures var d: seq<byte> := [0, 0, 3];
            NameGuardAsWritten(d) && !NameGuard(d) && d[0] == SnHostName
    ensures DataLen([0, 3, 0, 0, 3], 2) == Taken(3, [0, 0, 3])
    ensures ServnameRead([0, 3, 0, 0, 3]) == SnOut(0, None)
  {
    var data: seq<byte> := [0, 3, 0, 0, 3];
    assert data[2..] == [0, 0, 3];
    assert data[..2] == LenPrefix(3, 2);
  }

  // ---------------------------------------------------------------- supported_versions

  /** The 16-bit entries of a version list, trailing odd byte excluded. */
  function Versions(d: seq<byte>): (vs: seq<nat>)
    decreases |d|
    ensures |vs| == |d| / 2
  {
    if |d| < 2 then [] else [Be16(d, 0)] + Versions(d[2..])
  }

  /** The version after scanning the list: the largest of v and every entry. */
  function MaxVersion(d: seq<byte>, v: nat): nat
    decreases |d|
  {
    if |d| < 2 then v else MaxVersion(d[2..], if Be16(d, 0) > v then Be16(d, 0) else v)
  }

  /** MaxVersion is v or an entry of the list, and no smaller than either. */
  lemma {:induction false} MaxVersionIsMax(d: seq<byte>, v: nat)
    decreases |d|
    ensures MaxVersion(d, v) >= v
    ensures forall x :: x in Versions(d) ==> x <= MaxVersion(d, v)
    ensures MaxVersion(d, v) == v || MaxVersion(d, v) in Versions(d)
  {
    if |d| >= 2 {
      var w := if Be16(d, 0) > v then Be16(d, 0) else v;
      MaxVersionIsMax(d[2..], w);
    }
  }

  /** The loop condition of the client supported_versions scan as written:
      it continues while the index differs from the length. */
  predicate SuppVersLoopRunsAsWritten(len: nat, i: nat)
  {
    i != len
  }

  /** The supported_versions loop as written over a view of len bytes:
      the byte offsets it reads, from index i on, for at most fuel
      iterations; each iteration reads the two bytes at i and i + 1. */
  function SuppVersReadsAsWritten(len: nat, i: nat, fuel: nat): seq<nat>
    decreases fuel
  {
    if fuel == 0 || !SuppVersLoopRunsAsWritten(len, i) then [] else [i, i + 1] + SuppVersReadsAsWritten(len, i + 2, fuel - 1)
  }

  /** With a list of odd length, the loop as written never meets its exit
      test at any index it visits (0, 2, 4, ...), and within (len + 1) / 2
      iterations it reads offset len, one byte past the view. */
  lemma {:induction false} SuppVersWalkOverruns(len: nat, i: nat, fuel: nat)
    requires len % 2 == 1 && i % 2 == 0 && i < len && 2 * fuel > len - i
    decreases fuel
    ensures forall k: nat :: SuppVersLoopRunsAsWritten(len, i + 2 * k)
    ensures len in SuppVersReadsAsWritten(len, i, fuel)
  {
    assert SuppVersReadsAsWritten(len, i, fuel) == [i, i + 1] + SuppVersReadsAsWritten(len, i + 2, fuel - 1);
    if i + 1 < len {
      SuppVersWalkOverruns(len, i + 2, fuel - 1);
    }
  }

  /** With one byte of list, the loop as written reads byte 1 first, past
      the view; the corrected scan reads no entry and keeps the version. */
  lemma SuppVersOverrunAsWritten()
    ensures 1 in SuppVersReadsAsWritten(1, 0, 1)
    ensures MaxVersion([4], 0x0303) == 0x0303
  {
    SuppVersWalkOverruns(1, 0, 1);
  }

  /** The corrected client supported_versions scan, as a loop over the view. */
  method SuppVersScan(d: seq<byte>, v: nat) returns (m: nat)
    ensures m == MaxVersion(d, v)
  {
    var i := 0;
    m := v;
    while i + 2 <= |d|
      invariant i <= |d|
      invariant MaxVersion(d[i..], m) == MaxVersion(d, v)
      decreases |d| - i
    {
      assert Be16(d[i..], 0) == Be16(d, i);
      assert d[i..][2..] == d[i + 2..];
      var x := Be16(d, i);
      if x > m {
        m := x;
      }
      i := i + 2;
    }
  }

  /** What the supported_versions readers report: 0 or RDONE, and the
      version the reader's object ends with. */
  datatype VersOut = VersOut(r: int, version: nat)

  /** tlsext_clihel_suppvers_read with the corrected scan: an 8-bit list
      length, then every 16-bit entry of the rest of the extension. */
  function CliSuppVers(data: seq<byte>, version: nat): (o: VersOut)
    ensures o.r == 0 || o.r == RDone
    ensures o.version >= version
  {
    var t := DataLen(data, 1);
    if t.n < 0 then VersOut(0, version)
    else
      MaxVersionIsMax(t.rest, version);
      VersOut(RDone, MaxVersion(t.rest, version))
  }

  /** tlsext_srvhel_suppvers_read: one 16-bit version. */
  function SrvSuppVers(data: seq<byte>, version: nat): (o: VersOut)
    ensures o.r == 0 <==> |data| < 2
    ensures o.r == 0 || o.r == RDone
    ensures o.version >= version
    ensures o.r == RDone ==> o.version >= Be16(data, 0)
                             && (o.version == version || o.version == Be16(data, 0))
  {
    if |data| < 2 then VersOut(0, version)
    else VersOut(RDone, if Be16(data, 0) > version then Be16(data, 0) else version)
  }

  // ---------------------------------------------------------------- extensions

  /** What tlsext_read reports: the result, the view after the extension,
      and the reader's version, host name and ALPN list afterwards (None:
      not set). */
  datatype ExtOut = ExtOut(r: int, rest: seq<byte>, version: nat,
                           hostname: Option<seq<byte>>, alpn: Option<seq<byte>>)

  /** tlsext_clihel_alpn_read: the 16-bit protocol list, kept whole. */
  function AlpnRead(data: seq<byte>): (o: Option<seq<byte>>)
    ensures o.None? <==> LenFails(data, 2)
    ensures o.Some? ==> |o.value| < 0x1_0000 && data[..2] == LenPrefix(|o.value|, 2) && data[2..2 + |o.value|] == o.value
  {
    var t := DataLen(data, 2);
    if t.n < 0 then None else Some(t.rest[..t.n])
  }

  /** tlsext_read: a 4-byte header, then the body is consumed and handed
      to the reader of its type; a type the reader does not know is
      skipped with RDONE. hsType is the handshake being read: the two
      hellos have different supported_versions forms. */
  function ExtRead(data: seq<byte>, hsType: nat, version: nat): (o: ExtOut)
    ensures |data| < ExtHdr ==> o.r == 0
    ensures |data| >= ExtHdr ==> |o.rest| <= |data| - ExtHdr
    ensures o.version >= version
    ensures o.hostname.Some? ==> o.r == RClientHelloSni
    ensures o.alpn.Some? <==> o.r == RHelloAlpn
    ensures o.r == 0 || o.r == RClientHelloSni || o.r == RHelloAlpn || o.r == RDone
  {
    if |data| < ExtHdr then ExtOut(0, data, version, None, None)
    else
      var d := data[ExtHdr..];
      var n := Be16(data, 2);
      if n > |d| then ExtOut(0, d, version, None, None)
      else
        var ext, rest := d[..n], d[n..];
        var typ := Be16(data, 0);
        if typ == ExtServerName then
          var s := ServnameRead(ext);
          ExtOut(s.r, rest, version, s.hostname, None)
        else if typ == ExtAlpn then
          var a := AlpnRead(ext);
          if a.None? then ExtOut(0, rest, version, None, None)
          else ExtOut(RHelloAlpn, rest, version, None, a)
        else if typ == ExtSuppVers then
          var s := if hsType == HsClientHello then CliSuppVers(ext, version)
                   else SrvSuppVers(ext, version);
          ExtOut(s.r, rest, s.version, None, None)
        else ExtOut(RDone, rest, version, None, None)
  }

  /** tlsext_read as the C runs it: the server_name walk and the
      supported_versions scan are loops. */
  method ExtReadScan(data: seq<byte>, hsType: nat, version: nat) returns (o: ExtOut)
    ensures o == ExtRead(data, hsType, version)
  {
    if |data| < ExtHdr {
      return ExtOut(0, data, version, None, None);
    }
    var d := data[ExtHdr..];
    var n := Be16(data, 2);
    if n > |d| {
      return ExtOut(0, d, version, None, None);
    }
    var ext, rest := d[..n], d[n..];
    var typ := Be16(data, 0);
    if typ == ExtServerName {
      var t := DataLen(ext, 2);
      var sn := SnOut(0, None);
      if t.n >= 0 {
        sn := NameListScan(t.rest);
      }
      o := ExtOut(sn.r, rest, version, sn.hostname, None);
    } else if typ == ExtAlpn {
      var a := AlpnRead(ext);
      o := if a.None? then ExtOut(0, rest, version, None, None)
           else ExtOut(RHelloAlpn, rest, version, None, a);
    } else if typ == ExtSuppVers && hsType == HsClientHello {
      var t := DataLen(ext, 1);
      if t.n < 0 {
        o := ExtOut(0, rest, version, None, None);
      } else {
        var m := SuppVersScan(t.rest, version);
        o := ExtOut(RDone, rest, m, None, None);
      }
    } else if typ == ExtSuppVers {
      var sv := SrvSuppVers(ext, version);
      o := ExtOut(sv.r, rest, sv.version, None, None);
    } else {
      o := ExtOut(RDone, rest, version, None, None);
    }
  }

  /** One extension: type, 16-bit length, body. */
  function ExtensionBytes(typ: u16, body: seq<byte>): (r: seq<byte>)
    requires |body| < 0x1_0000
    ensures |r| == ExtHdr + |body|
  {
    ToBe16(typ) + ToBe16(|body|) + body
  }

  /** Reading an encoded extension gives its type and body and consumes
      exactly it. */
  lemma ExtensionFields(typ: u16, body: seq<byte>, rest: seq<byte>)
    requires |body| < 0x1_0000
    ensures var data := ExtensionBytes(typ, body) + rest;
            Be16(data, 0) == typ && Be16(data, 2) == |body|
            && data[ExtHdr..][..|body|] == body && data[ExtHdr..][|body|..] == rest
  {
    var data := ExtensionBytes(typ, body) + rest;
    assert data[..2] == ToBe16(typ) && data[2..4] == ToBe16(|body|);
    assert Be16(data, 0) == Be16(data[..2], 0);
    assert Be16(data, 2) == Be16(data[2..4], 0);
    assert data[ExtHdr..] == body + rest;
  }

  /** An extension of a type the reader does not interpret is skipped:
      RDONE, nothing set, the view after it. */
  lemma ExtReadSkipsUnknown(typ: u16, body: seq<byte>, rest: seq<byte>, hsType: nat, version: nat)
    requires |body| < 0x1_0000
    requires typ != ExtServerName && typ != ExtAlpn && typ != ExtSuppVers
    ensures ExtRead(ExtensionBytes(typ, body) + rest, hsType, version)
            == ExtOut(RDone, rest, version, None, None)
  {
    ExtensionFields(typ, body, rest);
  }

  /** A server_name extension holding one host_name entry surfaces the
      host name. */
  lemma ExtReadSni(name: seq<byte>, rest: seq<byte>, hsType: nat, version: nat)
    requires |name| + 5 < 0x1_0000
    ensures var list := NameEntry(SnHostName, name);
            var body := LenPrefix(|list|, 2) + list;
            ExtRead(ExtensionBytes(ExtServerName, body) + rest, hsType, version)
            == ExtOut(RClientHelloSni, rest, version, Some(name), None)
  {
    var list := NameEntry(SnHostName, name);
    var body := LenPrefix(|list|, 2) + list;
    ExtensionFields(ExtServerName, body, rest);
    assert body == LenPrefix(|list|, 2) + list + [];
    DataLenPrefixed(list, [], 2);
    assert list == list + [];
    NameListHost(name, []);
  }

  /** An ALPN extension surfaces its protocol list. */
  lemma ExtReadAlpn(protos: seq<byte>, rest: seq<byte>, hsType: nat, version: nat)
    requires |protos| + 2 < 0x1_0000
    ensures var body := LenPrefix(|protos|, 2) + protos;
            ExtRead(ExtensionBytes(ExtAlpn, body) + rest, hsType, version)
            == ExtOut(RHelloAlpn, rest, version, None, Some(protos))
  {
    var body := LenPrefix(|protos|, 2) + protos;
    ExtensionFields(ExtAlpn, body, rest);
    assert body == LenPrefix(|protos|, 2) + protos + [];
    DataLenPrefixed(protos, [], 2);
  }

  /** tlsexts_data: the 16-bit extension block and the data after it, to
      which the view is shifted; None when the block is invalid. */
  function ExtsData(data: seq<byte>): (o: Option<(seq<byte>, seq<byte>)>)
    ensures o.None? <==> LenFails(data, 2)
    ensures o.Some? ==> |o.value.0| < 0x1_0000 && data == LenPrefix(|o.value.0|, 2) + o.value.0 + o.value.1
  {
    var t := DataLen(data, 2);
    if t.n < 0 then None
    else
      assert data == data[..2] + t.rest[..t.n] + t.rest[t.n..];
      Some((t.rest[..t.n], t.rest[t.n..]))
  }

  // ---------------------------------------------------------------- certificates

  /** What tls_certs_read reports: RCERT or 0, the certificate (None: not
      set) and the handshake body view after it. */
  datatype CertOut = CertOut(r: int, cert: Option<seq<byte>>, rest: seq<byte>)

  /** tls_certs_read: the 24-bit certificate list is consumed from the
      view; the first 24-bit certificate inside it is returned. */
  function CertsRead(data: seq<byte>): (o: CertOut)
    ensures o.r == RCert || o.r == 0
    ensures o.r == RCert <==> o.cert.Some?
    ensures LenFails(data, 3) ==> o == CertOut(0, None, data)
    ensures !LenFails(data, 3) ==> o.rest == data[3 + BeW(data, 3)..]
  {
    var d := DataLen(data, 3);
    if d.n < 0 then CertOut(0, None, data)
    else
      var rest := data[3 + d.n..];
      var c := DataLen(d.rest, 3);
      if c.n < 0 then CertOut(0, None, rest)
      else CertOut(RCert, Some(c.rest[..c.n]), rest)
  }

  /** Reading a certificate list whose first certificate is cert gives
      that certificate and consumes the whole list. */
  lemma CertsReadFirst(cert: seq<byte>, more: seq<byte>, rest: seq<byte>)
    requires 3 + |cert| + |more| < 0x100_0000
    ensures var list := LenPrefix(|cert|, 3) + cert + more;
            CertsRead(LenPrefix(|list|, 3) + list + rest) == CertOut(RCert, Some(cert), rest)
  {
    var list := LenPrefix(|cert|, 3) + cert + more;
    DataLenPrefixed(list, rest, 3);
    var data := LenPrefix(|list|, 3) + list + rest;
    assert data[3 + |list|..] == rest;
    DataLenPrefixed(cert, more + rest, 3);
    assert list + rest == LenPrefix(|cert|, 3) + cert + (more + rest);
    var c := DataLen(list + rest, 3);
    assert c.rest[..|cert|] == cert;
  }

  // ---------------------------------------------------------------- ALPN list walk

  /** What fftls_alpn_next reports: 0 or the bytes taken, the protocol
      (None: not set) and the list view after it. */
  datatype AlpnOut = AlpnOut(r: int, proto: Option<seq<byte>>, rest: seq<byte>)

  /** fftls_alpn_next: take one 8-bit length-prefixed protocol name. */
  function AlpnNext(buf: seq<byte>): (o: AlpnOut)
    ensures o.r == 0 <==> LenFails(buf, 1)
    ensures o.r == 0 ==> o == AlpnOut(0, None, buf)
    ensures o.r != 0 ==> o.proto.Some? && o.r == |o.proto.value| + 1
                         && buf == [|o.proto.value|] + o.proto.value + o.rest
  {
    var t := DataLen(buf, 1);
    if t.n < 0 then AlpnOut(0, None, buf)
    else
      assert buf == buf[..1] + t.rest[..t.n] + t.rest[t.n..];
      AlpnOut(t.n + 1, Some(t.rest[..t.n]), t.rest[t.n..])
  }

  /** The protocol names a caller gets by calling fftls_alpn_next until it
      returns 0. */
  function AlpnProtocols(buf: seq<byte>): seq<seq<byte>>
    decreases |buf|
  {
    var o := AlpnNext(buf);
    if o.r == 0 then [] else [o.proto.value] + AlpnProtocols(o.rest)
  }

  /** An ALPN protocol list: each name prefixed by its 8-bit length. */
  function ProtoList(ps: seq<seq<byte>>): seq<byte>
    requires forall i :: 0 <= i < |ps| ==> |ps[i]| < 0x100
  {
    if ps == [] then [] else [|ps[0]|] + ps[0] + ProtoList(ps[1..])
  }

  /** Walking an encoded protocol list gives back its names in order. */
  lemma {:induction false} AlpnProtocolsRoundTrip(ps: seq<seq<byte>>)
    requires forall i :: 0 <= i < |ps| ==> |ps[i]| < 0x100
    ensures AlpnProtocols(ProtoList(ps)) == ps
  {
    if ps != [] {
      var buf := ProtoList(ps);
      assert buf == LenPrefix(|ps[0]|, 1) + ps[0] + ProtoList(ps[1..]);
      DataLenPrefixed(ps[0], ProtoList(ps[1..]), 1);
      var o := AlpnNext(buf);
      assert o.proto.value == ps[0] && o.rest == ProtoList(ps[1..]);
      AlpnProtocolsRoundTrip(ps[1..]);
    } else {
      assert AlpnNext([]).r == 0;
    }
  }

  // ---------------------------------------------------------------- names

  /** fftls_verstr. */
  function VerStr(ver: nat): (s: string)
    ensures s == "unknown" <==> !(0x0301 <= ver <= 0x0304)
    ensures ver == 0x0303 ==> s == "TLSv1.2"
  {
    if 0x0301 <= ver <= 0x0304 then ["TLSv1", "TLSv1.1", "TLSv1.2", "TLSv1.3"][ver - 0x0301]
    else "unknown"
  }

  /** Distinct known versions have distinct names. */
  lemma VerStrInjective(v: nat, w: nat)
    requires 0x0301 <= v <= 0x0304 && 0x0301 <= w <= 0x0304
    ensures VerStr(v) == VerStr(w) ==> v == w
  {
  }
}
