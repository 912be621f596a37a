/** The TLS handshake reader (fftls_read): a state machine over the
    fields of struct fftls. Each call runs the machine until it has
    something to report: more input needed, a hello, a host name, an
    ALPN list, a certificate, one of the bodiless server messages, the
    end of a record, or an error.

    Step is one pass of the C switch, Run the whole call; the class
    Reader holds the fields and its Read method is proved to end in
    the state and result Run gives. */
module TlsReader {
  import opened Bytes
  import opened TlsWire

  /** The reader's states (R_REC ... R_CERTS). */
  datatype Phase = Rec | Hshake | CliHel | SrvHel | HelExts | HelExt | Certs

  /** The fields of struct fftls. */
  datatype TlsState = TlsState(phase: Phase, err: int, version: nat, hshakeType: nat,
                               inp: seq<byte>, buf: seq<byte>, rec: seq<byte>,
                               sessionId: seq<byte>, ciphers: seq<byte>, hostname: seq<byte>,
                               alpnProtos: seq<byte>, cert: seq<byte>)

  /** The state after one pass; stop says whether the call returns r. */
  datatype StepOut = StepOut(t: TlsState, stop: bool, r: int)

  /** A zero-filled struct fftls. */
  function Init(): TlsState
  {
    TlsState(Rec, 0, 0, 0, [], [], [], [], [], [], [], [])
  }

  /** The field a reader set, or the old value when it left it alone. */
  function Keep<T>(o: Option<T>, cur: T): T
  {
    if o.Some? then o.value else cur
  }

  /** The ERR macro: store the negated error code; the call returns RERR.
      The header comments `err` as holding an FFTLS_E value, but after an
      error it holds -EVERSION or -ENOTSUPP, as tls.c:441-442 writes. */
  function Err(t: TlsState, code: int): TlsState
  {
    t.(err := -code)
  }

  /** How far the machine may still go without returning: the passes
      that do not return move to a state of smaller measure. */
  function Measure(t: TlsState): nat
  {
    match t.phase
    case CliHel => 0
    case SrvHel => 0
    case Certs => 0
    case Hshake => 1
    case Rec => 2
    case HelExt => 2 + |t.buf|
    case HelExts => 3 + |t.buf|
  }

  /** R_REC: read one record from the input. */
  function RecPhase(t: TlsState): StepOut
  {
    var o := RecRead(t.inp);
    var t1 := t.(version := Keep(o.version, t.version), inp := o.rest, rec := Keep(o.body, t.rec));
    if o.r == 0 then StepOut(t1, true, RMore)
    else if o.r < 0 then StepOut(Err(t1, -o.r), true, RErr)
    else if o.r == RtHandshake then StepOut(t1.(phase := Hshake), false, 0)
    else StepOut(Err(t1, ENotSupp), true, RErr)
  }

  /** R_HSHAKE: take the next handshake message from the record. */
  function HshakePhase(t: TlsState): StepOut
  {
    if t.rec == [] then StepOut(t.(phase := Rec), true, RDone)
    else
      var o := HshakeRead(t.rec);
      var t1 := t.(rec := o.rest, buf := Keep(o.body, t.buf));
      if o.r <= 0 then StepOut(Err(t1, -o.r), true, RErr)
      else
        var t2 := t1.(hshakeType := o.r);
        if o.r == HsClientHello then StepOut(t2.(phase := CliHel), false, 0)
        else if o.r == HsServerHello then StepOut(t2.(phase := SrvHel), false, 0)
        else if o.r == HsCertificate then StepOut(t2.(phase := Certs), false, 0)
        else if o.r == HsServerKeyExchange then StepOut(t2, true, RKeyExch)
        else if o.r == HsCertificateRequest then StepOut(t2, true, RCertReq)
        else if o.r == HsServerHelloDone then StepOut(t2, true, RServHelloDone)
        else StepOut(Err(t2, ENotSupp), true, RErr)
  }

  /** R_CLIHEL and R_SRVHEL: read the hello, then go to its extensions. */
  function HelloPhase(t: TlsState, client: bool): StepOut
  {
    var o := if client then CliHelloRead(t.buf, t.version) else SrvHelloRead(t.buf, t.version);
    var t1 := t.(version := o.version, sessionId := Keep(o.sessionId, t.sessionId),
                 ciphers := Keep(o.ciphers, t.ciphers), buf := o.rest);
    if o.r <= 0 then StepOut(Err(t1, -o.r), true, RErr)
    else StepOut(t1.(phase := HelExts), true, if client then RClientHello else RServerHello)
  }

  /** R_HEL_EXTS: narrow buf to the extension block. */
  function HelExtsPhase(t: TlsState): StepOut
  {
    var o := ExtsData(t.buf);
    if o.None? then StepOut(Err(t, EData), true, RErr)
    else StepOut(t.(buf := o.value.0, phase := HelExt), false, 0)
  }

  /** R_HEL_EXT: read one extension; an empty block returns to R_HSHAKE. */
  function HelExtPhase(t: TlsState): StepOut
  {
    if t.buf == [] then StepOut(t.(phase := Hshake), false, 0)
    else
      var o := ExtRead(t.buf, t.hshakeType, t.version);
      var t1 := t.(buf := o.rest, version := o.version, hostname := Keep(o.hostname, t.hostname),
                   alpnProtos := Keep(o.alpn, t.alpnProtos));
      if o.r <= 0 then StepOut(Err(t1, -o.r), true, RErr)
      else if o.r != RDone then StepOut(t1, true, o.r)
      else StepOut(t1, false, 0)
  }

  /** R_CERTS: report the first certificate. Its error path returns RERR
      without ERR, so err keeps its value. */
  function CertsPhase(t: TlsState): StepOut
  {
    var o := CertsRead(t.buf);
    var t1 := t.(buf := o.rest, cert := Keep(o.cert, t.cert));
    if o.r <= 0 then StepOut(t1, true, RErr)
    else StepOut(t1.(phase := Hshake), true, RCert)
  }

  /** One pass of the switch in fftls_read. */
  function Step(t: TlsState): (o: StepOut)
    ensures !o.stop ==> Measure(o.t) < Measure(t)
    ensures o.t.err != t.err ==> o.stop && o.r == RErr
  {
    match t.phase
    case Rec => RecPhase(t)
    case Hshake => HshakePhase(t)
    case CliHel => HelloPhase(t, true)
    case SrvHel => HelloPhase(t, false)
    case HelExts => HelExtsPhase(t)
    case HelExt => HelExtPhase(t)
    case Certs => CertsPhase(t)
  }

  /** One call of fftls_read: passes until one returns. */
  function Run(t: TlsState): (o: StepOut)
    decreases Measure(t)
    ensures o.stop
  {
    var s := Step(t);
    if s.stop then s else Run(s.t)
  }

  // ---------------------------------------------------------------- properties

  /** A record that is not a handshake record gives RERR with
      err = -ENOTSUPP. */
  lemma NonHandshakeRecord(t: TlsState)
    requires t.phase == Rec && RecRead(t.inp).r > 0 && RecRead(t.inp).r != RtHandshake
    ensures Run(t).r == RErr && Run(t).t.err == -ENotSupp
  {
  }

  /** A bad record version gives RERR with err = -EVERSION; a short or
      incomplete record gives RMORE; neither changes the state. */
  lemma RecordErrors(t: TlsState)
    requires t.phase == Rec
    ensures RecRead(t.inp).r == -EVersion ==> Run(t).r == RErr && Run(t).t.err == -EVersion
    ensures RecRead(t.inp).body.None? && RecRead(t.inp).r == 0 ==> Run(t).r == RMore
    ensures RecRead(t.inp).r <= 0 ==> Run(t).t.phase == Rec
  {
  }

  /** An exhausted record returns RDONE and goes back to reading records. */
  lemma RecordExhausted(t: TlsState)
    requires t.phase == Hshake && t.rec == []
    ensures Run(t) == StepOut(t.(phase := Rec), true, RDone)
  {
  }

  /** A handshake message of a type the reader does not know gives RERR
      with err = -ENOTSUPP. */
  lemma UnknownHandshake(t: TlsState)
    requires t.phase == Hshake && t.rec != [] && HshakeRead(t.rec).r > 0
    requires HshakeRead(t.rec).r !in {HsClientHello, HsServerHello, HsCertificate,
                                      HsServerKeyExchange, HsCertificateRequest, HsServerHelloDone}
    ensures Run(t).r == RErr && Run(t).t.err == -ENotSupp
  {
  }

  /** A pass that returns RERR through ERR stores the negation of one of
      the error codes; the certificate pass stores nothing. */
  lemma StepErrCodes(t: TlsState)
    requires Step(t).r == RErr
    ensures t.phase != Certs ==> Step(t).t.err in {-EData, -EVersion, -ENotSupp}
    ensures t.phase == Certs ==> Step(t).t.err == t.err
  {
    match t.phase
    case Rec =>
    case Hshake =>
    case CliHel =>
    case SrvHel =>
    case HelExts =>
    case HelExt =>
    case Certs =>
  }

  /** A call that changes err returns RERR, and the new err is the
      negation of an error code. */
  lemma {:induction false} RunErrCodes(t: TlsState)
    decreases Measure(t)
    ensures Run(t).t.err != t.err ==> Run(t).r == RErr
    ensures Run(t).r == RErr ==> Run(t).t.err in {-EData, -EVersion, -ENotSupp} || Run(t).t.err == t.err
  {
    var s := Step(t);
    if s.stop {
      if s.r == RErr {
        StepErrCodes(t);
      }
    } else {
      RunErrCodes(s.t);
    }
  }

  /** An empty extension block goes back to handshake parsing. */
  lemma ExtWalkEnds(t: TlsState)
    requires t.phase == HelExt && t.buf == []
    ensures Run(t) == Run(t.(phase := Hshake))
  {
  }

  /** A server_name or ALPN extension is surfaced to the caller, with the
      walk left at the next extension. */
  lemma ExtWalkSurfaces(t: TlsState)
    requires t.phase == HelExt && t.buf != []
    requires ExtRead(t.buf, t.hshakeType, t.version).r in {RClientHelloSni, RHelloAlpn}
    ensures var o := ExtRead(t.buf, t.hshakeType, t.version);
            Run(t).r == o.r && Run(t).t.phase == HelExt && Run(t).t.buf == o.rest
    ensures Run(t).r == RClientHelloSni ==> Run(t).t.hostname == ExtRead(t.buf, t.hshakeType, t.version).hostname.value
    ensures Run(t).r == RHelloAlpn ==> Run(t).t.alpnProtos == ExtRead(t.buf, t.hshakeType, t.version).alpn.value
  {
  }

  /** An extension of a type the reader does not interpret is skipped. */
  lemma ExtWalkSkipsUnknown(t: TlsState, typ: u16, body: seq<byte>, rest: seq<byte>)
    requires |body| < 0x1_0000
    requires typ != ExtServerName && typ != ExtAlpn && typ != ExtSuppVers
    requires t.phase == HelExt && t.buf == ExtensionBytes(typ, body) + rest
    ensures Run(t) == Run(t.(buf := rest))
  {
    ExtReadSkipsUnknown(typ, body, rest, t.hshakeType, t.version);
  }

  /** Outside the record state no pass lowers the version, and no pass
      that goes on enters the record state. */
  lemma StepVersion(t: TlsState)
    requires t.phase != Rec
    ensures Step(t).t.version >= t.version
    ensures !Step(t).stop ==> Step(t).t.phase != Rec
  {
    match t.phase
    case Hshake =>
    case CliHel =>
    case SrvHel =>
    case HelExts =>
    case HelExt =>
    case Certs =>
  }

  /** Once a record is being read, the version only ever increases: the
      hellos and supported_versions raise it, nothing lowers it. */
  lemma {:induction false} RunVersion(t: TlsState)
    requires t.phase != Rec
    decreases Measure(t)
    ensures Run(t).t.version >= t.version
  {
    StepVersion(t);
    var s := Step(t);
    if !s.stop {
      RunVersion(s.t);
    }
  }

  /** A handshake record: the pass stores its version and body and goes
      on to the handshake messages. */
  lemma HandshakeRecordPass(t: TlsState, v: nat, body: seq<byte>, rest: seq<byte>)
    requires t.phase == Rec && RecRead(t.inp) == RecOut(RtHandshake, Some(v), Some(body), rest)
    ensures Step(t) == StepOut(t.(phase := Hshake, version := v, inp := rest, rec := body), false, 0)
  {
  }

  /** A client hello message: the pass stores its body and type and goes
      on to the hello. */
  lemma ClientHelloPass(t: TlsState, body: seq<byte>, rest: seq<byte>)
    requires t.phase == Hshake && t.rec != []
    requires HshakeRead(t.rec) == HsOut(HsClientHello, Some(body), rest)
    ensures Step(t) == StepOut(t.(phase := CliHel, rec := rest, buf := body,
                                  hshakeType := HsClientHello), false, 0)
  {
  }

  /** A client hello that reads: RCLIENT_HELLO with its fields stored. */
  lemma HelloReadPass(t: TlsState, v: nat, sid: seq<byte>, ciphers: seq<byte>, rest: seq<byte>)
    requires t.phase == CliHel
    requires CliHelloRead(t.buf, t.version) == HelloOut(1, v, Some(sid), Some(ciphers), rest)
    ensures Step(t) == StepOut(t.(phase := HelExts, version := v, sessionId := sid,
                                  ciphers := ciphers, buf := rest), true, RClientHello)
  {
  }

  /** A handshake record carrying one client hello gives RCLIENT_HELLO with
      the hello's version, session ID and cipher list, and leaves the reader
      at the hello's extensions with the rest of the input unread. */
  lemma ClientHelloRecord(t: TlsState, recVer: u16, ver: u16, random: seq<byte>, sid: seq<byte>,
                          ciphers: seq<byte>, comp: seq<byte>, exts: seq<byte>, rest: seq<byte>)
    requires |random| == 32 && |sid| < 0x100 && |ciphers| < 0x1_0000 && |comp| < 0x100
    requires RecVersionOk(recVer) && HelloVersionOk(ver, recVer)
    requires HsHdr + |ClientHelloBytes(ver, random, sid, ciphers, comp) + exts| < 0x1_0000
    requires t.phase == Rec
    requires t.inp == RecordBytes(RtHandshake, recVer,
                        HandshakeBytes(HsClientHello, ClientHelloBytes(ver, random, sid, ciphers, comp) + exts))
                      + rest
    ensures Run(t).r == RClientHello
    ensures Run(t).t == t.(phase := HelExts, version := ver, hshakeType := HsClientHello, inp := rest,
                           rec := [], buf := exts, sessionId := sid, ciphers := ciphers)
  {
    var hello := ClientHelloBytes(ver, random, sid, ciphers, comp) + exts;
    var msg := HandshakeBytes(HsClientHello, hello);
    RecReadRecord(RtHandshake, recVer, msg, rest);
    HandshakeRecordPass(t, recVer, msg, rest);
    var t1 := t.(phase := Hshake, version := recVer, inp := rest, rec := msg);
    assert msg == msg + [];
    HshakeReadMessage(HsClientHello, hello, []);
    ClientHelloPass(t1, hello, []);
    var t2 := t1.(phase := CliHel, rec := [], buf := hello, hshakeType := HsClientHello);
    CliHelloReadEncoded(ver, random, sid, ciphers, comp, exts, recVer);
    HelloReadPass(t2, ver, sid, ciphers, exts);
    assert Run(t) == Run(t1) == Run(t2) == Step(t2);
  }

  // ---------------------------------------------------------------- the object

  /** struct fftls, updated in place by fftls_read. */
  class Reader {
    var phase: Phase
    var err: int
    var version: nat
    var hshakeType: nat
    var inp: seq<byte>
    var buf: seq<byte>
    var rec: seq<byte>
    var sessionId: seq<byte>
    var ciphers: seq<byte>
    var hostname: seq<byte>
    var alpnProtos: seq<byte>
    var cert: seq<byte>

    function State(): TlsState
      reads this
    {
      TlsState(phase, err, version, hshakeType, inp, buf, rec, sessionId, ciphers,
               hostname, alpnProtos, cert)
    }

    /** A zero-filled reader. */
    constructor ()
      ensures State() == Init()
    {
      phase, err, version, hshakeType := Rec, 0, 0, 0;
      inp, buf, rec, sessionId, ciphers, hostname, alpnProtos, cert := [], [], [], [], [], [], [], [];
    }

    /** fftls_input: hand the reader its input. */
    method Input(data: seq<byte>)
      modifies this
      ensures State() == old(State()).(inp := data)
    {
      inp := data;
    }

    /** fftls_read. */
    method Read() returns (r: int)
      modifies this
      ensures State() == Run(old(State())).t && r == Run(old(State())).r
    {
      while true
        invariant Run(State()) == Run(old(State()))
        decreases Measure(State())
      {
        var stop: bool;
        stop, r := Pass();
        if stop {
          return;
        }
      }
    }

    /** One pass of the switch. */
    method Pass() returns (stop: bool, r: int)
      modifies this
      ensures StepOut(State(), stop, r) == Step(old(State()))
    {
      match phase
      case Rec => stop, r := RecordPass();
      case Hshake => stop, r := HandshakePass();
      case CliHel => stop, r := HelloPass(true);
      case SrvHel => stop, r := HelloPass(false);
      case HelExts => stop, r := ExtsPass();
      case HelExt => stop, r := ExtPass();
      case Certs => stop, r := CertsPass();
    }

    method RecordPass() returns (stop: bool, r: int)
      requires phase == Rec
      modifies this
      ensures StepOut(State(), stop, r) == Step(old(State()))
    {
      var o := RecRead(inp);
      if o.version.Some? {
        version := o.version.value;
      }
      inp := o.rest;
      if o.body.Some? {
        rec := o.body.value;
      }
      if o.r == 0 {
        return true, RMore;
      } else if o.r < 0 {
        err := o.r;
        return true, RErr;
      }
      if o.r == RtHandshake {
        phase := Hshake;
        return false, 0;
      }
      err := -ENotSupp;
      return true, RErr;
    }

    method HandshakePass() returns (stop: bool, r: int)
      requires phase == Hshake
      modifies this
      ensures StepOut(State(), stop, r) == Step(old(State()))
    {
      if rec == [] {
        phase := Rec;
        return true, RDone;
      }
      var o := HshakeRead(rec);
      rec := o.rest;
      if o.body.Some? {
        buf := o.body.value;
      }
      if o.r <= 0 {
        err := o.r;
        return true, RErr;
      }
      hshakeType := o.r;
      stop, r := false, 0;
      if o.r == HsClientHello {
        phase := CliHel;
      } else if o.r == HsServerHello {
        phase := SrvHel;
      } else if o.r == HsCertificate {
        phase := Certs;
      } else if o.r == HsServerKeyExchange {
        stop, r := true, RKeyExch;
      } else if o.r == HsCertificateRequest {
        stop, r := true, RCertReq;
      } else if o.r == HsServerHelloDone {
        stop, r := true, RServHelloDone;
      } else {
        err := -ENotSupp;
        stop, r := true, RErr;
      }
    }

    method HelloPass(client: bool) returns (stop: bool, r: int)
      requires phase == (if client then CliHel else SrvHel)
      modifies this
      ensures StepOut(State(), stop, r) == Step(old(State()))
    {
      var o := if client then CliHelloRead(buf, version) else SrvHelloRead(buf, version);
      SetHello(o);
      if o.r <= 0 {
        err := o.r;
        return true, RErr;
      }
      phase := HelExts;
      return true, if client then RClientHello else RServerHello;
    }

    /** Store what a hello reader found. */
    method SetHello(o: HelloOut)
      modifies this
      ensures State() == old(State()).(version := o.version, sessionId := Keep(o.sessionId, old(sessionId)),
                                       ciphers := Keep(o.ciphers, old(ciphers)), buf := o.rest)
    {
      version := o.version;
      if o.sessionId.Some? {
        sessionId := o.sessionId.value;
      }
      if o.ciphers.Some? {
        ciphers := o.ciphers.value;
      }
      buf := o.rest;
    }

    method ExtsPass() returns (stop: bool, r: int)
      requires phase == HelExts
      modifies this
      ensures StepOut(State(), stop, r) == Step(old(State()))
    {
      var o := ExtsData(buf);
      if o.None? {
        err := -EData;
        return true, RErr;
      }
      buf := o.value.0;
      phase := HelExt;
      return false, 0;
    }

    method ExtPass() returns (stop: bool, r: int)
      requires phase == HelExt
      modifies this
      ensures StepOut(State(), stop, r) == Step(old(State()))
    {
      if buf == [] {
        phase := Hshake;
        return false, 0;
      }
      var o := ExtReadScan(buf, hshakeType, version);
      buf := o.rest;
      version := o.version;
      if o.hostname.Some? {
        hostname := o.hostname.value;
      }
      if o.alpn.Some? {
        alpnProtos := o.alpn.value;
      }
      if o.r <= 0 {
        err := o.r;
        return true, RErr;
      }
      return o.r != RDone, if o.r != RDone then o.r else 0;
    }

    method CertsPass() returns (stop: bool, r: int)
      requires phase == Certs
      modifies this
      ensures StepOut(State(), stop, r) == Step(old(State()))
    {
      var o := CertsRead(buf);
      buf := o.rest;
      if o.cert.Some? {
        cert := o.cert.value;
      }
      if o.r <= 0 {
        return true, RErr;
      }
      phase := Hshake;
      return true, RCert;
    }
  }
}
