# A verified model of the stsaz/util networking and format core

This project models, in Dafny, the core of a C utility library:

- the asynchronous DNS resolver engine (`net/dns-client.c`);
- the WebSocket frame reader and writer (`net/websocket.c`);
- the TLS handshake reader (`net/tls.c`);
- the PE executable header reader (`misc/pe.c`);
- the host-name check and socket-address parser (`url.h`);
- the bridge between the low-level config tokenizer and its users (`conf2-ltconf.h`);
- the SOCKS4 request and reply helpers (`net/socks.h`);
- unsigned decimal formatting (`data/ffs_fromuint_10.c`);
- byte counting (`data/ffstr_charcount.c`);
- the 16-bit offset/length range (`range.h`);
- the TCP and VLAN header accessors (`net/tcp.h`, `net/vlan.h`).

Each source file gets a module of its own:

- `Bytes` holds the shared byte-level vocabulary.
- `IpText` models the IPv4 text parser and the 16-bit integer parser that `url.h` and the DNS server list call.
- `DnsMsg` models the decoded DNS answer and the address copying.
- `DnsClient` holds the resolver's state, its events as functions, and the lemmas about them.
- `DnsResolver` is the resolver as a class whose methods are proved to implement those functions.

The library's readers are incremental state machines over an input view that a caller refills. They are modelled in two layers:

- A function gives one pass of the C `switch`, and another gives one whole call.
- A class holds the C structure's fields. Its methods run the passes and are proved to end in the state and result that the function gives.

Properties of the protocol are then lemmas about the functions:

- round trips between encoders and readers;
- invariants;
- error codes;
- the order in which parts are reported.

Where verifying the natural contract showed that the C does something other than what it evidently intends, the code as written is modelled next to the corrected code. Such cases are listed under "## Findings".

## Model

| member | source | states |
|---|---|---|
| Bytes.XorInvolutive | net/websocket.c:220-224 | XOR with the same key byte twice restores the byte |
| Tcp.HdrLen | net/tcp.h:24 | the header length is four times the high nibble of the offset byte, a multiple of 4 no larger than 60 |
| Tcp.HdrLenCoversFixedHeader | net/tcp.h:5-14 | the length covers the 20-byte fixed header exactly when the data offset is at least 5 words, whatever the reserved bits hold |
| Tcp.FlagsIndependent | net/tcp.h:16-22 | FIN, SYN, RST, PUSH and ACK are each read as a bit of their own (bits 0 to 4), whatever the other bits hold |
| Vlan.Tag | net/vlan.h:2-5 | the tag image of the fields is the 4-byte header |
| Vlan.HdrId | net/vlan.h:7 | the identifier is the low 12 bits of the big-endian tag control field, below 4096 |
| Vlan.HdrIdOfTag | net/vlan.h:7 | reading the identifier back from a tag gives the identifier that was put in, whatever the other fields hold |
| Range16.Range16.Set | range.h:10-14 | offset and length are stored truncated to 16 bits |
| Range16.Range16.ToStr | range.h:16-20 | the view has the stored length and holds base's bytes from the stored offset on |
| Range16.SetThenView | range.h:10-20 | a range set from 16-bit values designates exactly base[off..off+len] |
| Socks4.ReqWrite | net/socks.h:22-30 | the 9 request bytes are version 4, command CONNECT, the port narrowed to 16 bits in network order, the IPv4 address and an empty user id |
| Socks4.RespRead | net/socks.h:48-58 | 0 exactly below 8 bytes; 1 exactly when vn is 0, the code is "granted" and the port and address bytes are all zero; -1 otherwise |
| Socks4.RespReadIgnoresTrailing | net/socks.h:48-58 | bytes after the 8-byte reply never change its verdict |
| Decimal.FromUint10 | data/ffs_fromuint_10.c:2-18 | the return value is the digit count when the digits fit, with dst holding exactly them; otherwise 0 and dst untouched |
| Decimal.DigitsWellFormed | data/ffs_fromuint_10.c:8-11 | the digit string is non-empty, has digits only, and has no leading zero unless the number is 0 |
| Decimal.DigitsValue | data/ffs_fromuint_10.c:8-11 | reading the digits back gives the number, so the formatting is lossless |
| Decimal.DigitsLength | data/ffs_fromuint_10.c:4-13 | an unsigned 32-bit number needs at most 10 digits, so the 32-byte scratch buffer never overflows |
| CharCount.FindChar | data/ffstr_charcount.c:6 | the result is -1 exactly when ch is absent, and otherwise the first index holding ch |
| CharCount.Count | data/ffstr_charcount.c:2-13 | the result is the multiplicity of ch in s, which is also the number of positions holding it |
| CharCount.PositionsCount | data/ffstr_charcount.c:2-13 | that count equals the multiplicity of ch in the multiset of s |
| IpText.DigitRunDigits | net/test-ipaddr.c:15-26 | a digit run is maximal and made of digits only |
| IpText.ParseIp4 | net/test-ipaddr.c:15-26 | a successful parse uses a non-empty prefix and gives four octets |
| IpText.Ip4ParseResult | net/test-ipaddr.c:15-21 | 0 exactly when the whole text is the address; positive, the bytes used, when other text follows; negative exactly when the parse fails |
| IpText.ParseIp4Extend | net/test-ipaddr.c:18-21 | text after a complete address that does not start with a digit leaves the address and the length used unchanged |
| IpText.ParseU16 | net/dns-client.c:889-891 | a parsed port is a non-empty run of digits only |
| IpText.Ip4ExampleFull | net/test-ipaddr.c:15-16 | "1.65.192.255" parses fully to 1.65.192.255 |
| IpText.Ip4ExampleTrailing | net/test-ipaddr.c:20-21 | "1.65.192.2/" gives 10, the length of the address |
| IpText.Ip4ExampleOutOfRange | net/test-ipaddr.c:25 | "1.65.192.256" is refused |
| IpText.Ip4ExampleEmptyOctet | net/test-ipaddr.c:24 | "1.65..192", with an empty component, is refused |
| Url.NotValidAt | url.h:13-83 | a position that fails its demand rules the name out |
| Url.IsDomain | url.h:13-83 | the number of labels (dots plus one) when the name meets the rule as written, -1 otherwise |
| Url.TrailingHyphenAccepted | url.h:42-44 | as written, "a.b-" is accepted with level 2, because the hyphen rule fires only before a dot |
| Url.IsDomainStrict | url.h:13-83 | the number of labels when the name meets the corrected rule, under which a final label may not end with a hyphen either; -1 otherwise |
| Url.StrictLabelEnds | url.h:42-44 | in a name the corrected check accepts, no label ends with a hyphen and every label starts with a letter or digit |
| Url.NoEmptyLabels | url.h:78-80 | an accepted name neither starts nor ends with a dot and has no empty label |
| Url.SockaddrFromStr | url.h:88-108 | -1 (None) for empty text or text that is not an IPv4 address; a success gives the four parsed address bytes; SockaddrRoundTrip and SockaddrRefuses state both directions |
| Url.SockaddrRefuses | url.h:88-108 | -1 for empty text, for an invalid IPv4 address, and for a ':' not followed by a valid 16-bit port |
| Url.SockaddrRoundTrip | url.h:88-108 | address text alone gives the default port; address text with ":" and a 16-bit decimal gives that port |
| LtConf.Classify | conf2-ltconf.h:19-63 | an unquoted "}" key closes an object, or gives ECtx at depth 0; an unquoted "{" value opens one; MORE gives RMORE, any other key RKEY, any other value RVAL or RVAL_NEXT, an error ESTR, and a chunk is passed through; only opening and closing change the depth |
| LtConf.Reader.constructor | conf2-ltconf.h:14-17 | a fresh bridge is at depth 0 with no token recorded |
| LtConf.Reader.Parse | conf2-ltconf.h:19-63 | the event and new depth are Classify's, and the token text and line are recorded also on error |
| LtConf.Reader.Parse3 | conf2-ltconf.h:65-70 | as Parse, also handing out the token text |
| LtConf.Reader.Fin | conf2-ltconf.h:72-78 | success exactly when no object is open, ECtx otherwise |
| LtConf.Run | conf2-ltconf.h:19-63 | a run gives one event per token |
| LtConf.RunDepth | conf2-ltconf.h:29-56 | the depth is always the objects opened minus the objects closed |
| LtConf.BalancedIffFinOk | conf2-ltconf.h:72-78 | from a fresh bridge, the end check passes exactly when every object opened was closed |
| LtConf.QuotedBraceIsText | conf2-ltconf.h:29-56 | a quoted brace never opens or closes an object |
| LtConf.OpenCloseScenario | conf2-ltconf.h:19-78 | "obj {" then "}" opens and closes an object, and the end check passes |
| WebSocket.DecodeHeader | net/websocket.c:102-165 | a decoded header is 2 to 14 bytes of the input, has a 4-byte key exactly when masked, and announces at most the largest payload; an undecided one is shorter than 14 bytes |
| WebSocket.DecodePrefix | net/websocket.c:92-100 | once a header is decided, bytes after it do not change it, so input may be split anywhere |
| WebSocket.XorFrom | net/websocket.c:177-181 | the unmasked data has the length of the input |
| WebSocket.XorFromInvolutive | net/websocket.c:177-181 | unmasking masked data restores it |
| WebSocket.XorFromPhase | net/websocket.c:177-181 | only the key position modulo 4 matters |
| WebSocket.XorFromSplit | net/websocket.c:177-181 | unmasking in two pieces equals unmasking at once when the second piece continues the key phase |
| WebSocket.BodyStep | net/websocket.c:167-188 | RDATA_FIN exactly when nothing is due; RMORE exactly when bytes are due and no input is there; otherwise a non-empty chunk of at most min(due, input), and at most 4096 bytes when masked, consumed from the input; an unmasked chunk is exactly the first min(due, input) bytes of the input itself (corrected: the key phase carries over from one chunk to the next; as written: WebSocket.UnmaskChunksAsWritten) |
| WebSocket.MaskedStep | net/websocket.c:167-188 | a masked step hands out the unmasked first min(due, input, 4096) bytes and advances the phase by as many (corrected: the key phase carries over from one chunk to the next; as written: WebSocket.UnmaskChunksAsWritten) |
| WebSocket.ChunksCompose | net/websocket.c:167-188 | two payload steps in a row hand out the unmasking of everything they consumed together |
| WebSocket.MaskPhaseLostAsWritten | net/websocket.c:177-181 | four zero bytes under key 01 02 03 04 arriving as 1 + 3 bytes unmask, as written, to 01 01 02 03 |
| WebSocket.UnmaskChunksAsWritten | net/websocket.c:177-181 | the unmasking as written: each chunk from key byte 0 |
| WebSocket.Reader.constructor | net/test-websocket.c:17 | a zeroed reader: client side, waiting for a header, no input and no output |
| WebSocket.Reader.Accept | net/websocket.c:43-55 | the reader becomes server-side and outputs the accept value |
| WebSocket.Reader.Input | net/websocket.h:87 | only the input view changes |
| WebSocket.Reader.ReadBody | net/websocket.c:167-188 | one payload call does what BodyStep gives and keeps the reader valid (corrected: the key phase carries over from one chunk to the next; as written: WebSocket.UnmaskChunksAsWritten) |
| WebSocket.Reader.GatherStep | net/websocket.c:92-100 | input that runs out leaves the header undecided, with RMORE; otherwise the reader moves on |
| WebSocket.Reader.HdrStep | net/websocket.c:102-145 | the fields of the first two bytes are set and the reader advances |
| WebSocket.Reader.LenStep | net/websocket.c:147-157 | an 8-byte length with its top byte set gives RERR; otherwise the length is taken |
| WebSocket.Reader.TakeHeader | net/websocket.c:159-165 | the key is taken and the reader enters the payload state, as DecodeHeader gives |
| WebSocket.Reader.ReadHeader | net/websocket.c:92-165 | gathered bytes plus new input are decoded as DecodeHeader gives |
| WebSocket.Reader.Step | net/websocket.c:86-165 | one pass over the header states keeps the header invariant and lowers the rank, or returns the outcome DecodeHeader gives |
| WebSocket.Reader.Parse | net/websocket.c:76-193 | in the header states the result is DecodeHeader's verdict on gathered plus new bytes, and a continuation frame is followed by its first payload step; in the payload state it is BodyStep (corrected: the key phase carries over from one chunk to the next; as written: WebSocket.UnmaskChunksAsWritten) |
| WebSocket.AcceptVer | net/websocket.c:57-62 | 0 exactly for version "13", -1 otherwise |
| WebSocket.NewMsgHeader | net/websocket.c:196-229 | the header is 2 to 14 bytes long (corrected: byte 1 carries the length code 126 or 127 before an extended length; as written: WebSocket.NewMsgHeaderAsWritten) |
| WebSocket.NewMsgHeaderDecodes | net/websocket.c:196-229 | a header from newmsg, followed by anything, decodes to a final frame with the same opcode, length and key (corrected: byte 1 carries the length code 126 or 127 before an extended length; as written: WebSocket.NewMsgHeaderAsWritten) |
| WebSocket.NewMsgFirstTwo | net/websocket.c:200-207 | the first two bytes pass the reader's checks and announce the header's own length |
| WebSocket.TopByteClear | net/websocket.c:152-157 | 8-byte lengths up to the frame maximum have a clear top byte, so the reader accepts them |
| WebSocket.LengthMarkerLostAsWritten | net/websocket.c:209-216 | a 200-byte text message gets, as written, the header 81 00 00 c8, which decodes as an empty frame |
| WebSocket.NewMsgHeaderAsWritten | net/websocket.c:209-216 | the header as written: the extended length without the 126/127 code in byte 1 |
| WebSocket.WriteStep | net/websocket.c:231-247 | RDATA_FIN exactly when the payload is used up; otherwise RDATA with a non-empty chunk taken off the payload, at most 4096 bytes when masking |
| WebSocket.WriterOutputMasks | net/websocket.c:231-247 | the writer's chunks make up the masked payload, because every chunk but the last is a multiple of 4 bytes |
| WebSocket.JoinChunk | net/websocket.c:231-247 | masking a whole number of key cycles and then the rest from key byte 0 equals masking both at once |
| WebSocket.WriterReaderRoundTrip | net/websocket.c:196-247 | a reader that decodes a writer's frame and unmasks the bytes after the header gets the payload back (corrected: byte 1 carries the length code 126 or 127 before an extended length; as written: WebSocket.NewMsgHeaderAsWritten) |
| WebSocket.ReaderExampleHeader | net/test-websocket.c:25-31 | the test frame is undecided after 3 bytes and, after 12, is a masked text header with length 6 |
| WebSocket.ReaderExamplePayload | net/test-websocket.c:32-34 | the test payload unmasks to "mydata" |
| WebSocket.WriterExample | net/test-websocket.c:43-50 | "12" as an unmasked text message is 81 02, then "12" in one chunk |
| WebSocket.Writer.constructor | net/test-websocket.c:41 | a zeroed writer with no payload, no output and a zero key |
| WebSocket.Writer.Input | net/websocket.h:87 | only the payload view changes |
| WebSocket.Writer.NewMsg | net/websocket.c:196-229 | RERR exactly when the payload is longer than a frame can announce; otherwise RDATA, with NewMsgHeader of the payload as output and the key kept (corrected: byte 1 carries the length code 126 or 127 before an extended length; as written: WebSocket.NewMsgHeaderAsWritten) |
| WebSocket.Writer.WriteNext | net/websocket.c:231-247 | the output and remaining payload are WriteStep's |
| TlsWire.LenPrefix | net/tls.c:64-95 | the w-byte big-endian length field reads back as n |
| TlsWire.DataLen | net/tls.c:64-95 | -1 exactly when the field or its body is short, with the view unchanged; otherwise the length, with the view at the body and the field the encoding of the length |
| TlsWire.LenPrefixUnique | net/tls.c:64-95 | a w-byte field is the encoding of its own value |
| TlsWire.DataLenPrefixed | net/tls.c:64-95 | a length prefix before its body reads as the body's length, leaving the view at the body |
| TlsWire.RecRead | net/tls.c:111-128 | the record type, version and body, or RMORE for a short record, or a version error; the version is stored whenever the header is there |
| TlsWire.RecReadRecord | net/tls.c:111-128 | reading an encoded record gives its type, version and body and consumes exactly it |
| TlsWire.AlertRecord | net/tls.c:577-587 | the alert is a record of type 21, version 3.1, with the 16-bit length and the data |
| TlsWire.AlertIsRecord | net/tls.c:577-587 | an alert that fits is that record, so the record reader reads it back |
| TlsWire.Alert | net/tls.c:577-587 | -1 when it does not fit; otherwise it writes the alert record into the buffer and returns its length |
| TlsWire.HshakeRead | net/tls.c:149-163 | the handshake type and body, or RMORE with the 4 header bytes consumed |
| TlsWire.HshakeReadMessage | net/tls.c:149-163 | reading an encoded handshake message gives its type and body |
| TlsWire.CliHelloRead | net/tls.c:182-213 | 1, 0 or -EVERSION; -EVERSION exactly when the version is not acceptable; the version only rises; success gives a session ID and a cipher list |
| TlsWire.CliHelloReadEncoded | net/tls.c:182-213 | reading an encoded client hello gives its version, session ID and ciphers, and stops at the extensions |
| TlsWire.SrvHelloRead | net/tls.c:228-255 | 1, 0 or -EVERSION, as for the client hello; on failure the view is left as it was; success gives one 2-byte cipher suite |
| TlsWire.SrvHelloReadEncoded | net/tls.c:228-255 | reading an encoded server hello gives its fields and stops at the extensions |
| TlsWire.NameList | net/tls.c:288-305 | the result is 0, RCLIENT_HELLO_SNI or RDONE, and a host name is found exactly with RCLIENT_HELLO_SNI (corrected: a name is read only when its 3-byte header and its n bytes fit; as written: TlsWire.NameOverrunAsWritten) |
| TlsWire.ServnameRead | net/tls.c:282-306 | as NameList after the list length; a list length that does not fit gives 0 and no name (corrected: a name is read only when its 3-byte header and its n bytes fit; as written: TlsWire.NameOverrunAsWritten) |
| TlsWire.NameListHost | net/tls.c:296-299 | a host_name entry gives its name |
| TlsWire.NameListSkips | net/tls.c:302 | an entry of another type is skipped |
| TlsWire.NameListScan | net/tls.c:288-305 | the corrected walk as a loop gives NameList's result (corrected: a name is read only when its 3-byte header and its n bytes fit; as written: TlsWire.NameOverrunAsWritten) |
| TlsWire.NameOverrunAsWritten | net/tls.c:290-294 | the list [0 3, 0 0 3] passes the guard as written with 3 bytes of name declared and none present |
| TlsWire.MaxVersionIsMax | net/tls.c:333-344 | the highest version is the start value or a listed one, and no smaller than any |
| TlsWire.MaxVersion | net/tls.c:338-342 | the version after the scan; MaxVersionIsMax states that it is the largest of the old version and the entries |
| TlsWire.SuppVersOverrunAsWritten | net/tls.c:338 | with a list of one byte, the loop as written reads offset 1, past the view, while the corrected scan keeps the version |
| TlsWire.SuppVersReadsAsWritten | net/tls.c:338-339 | the byte offsets the supported_versions loop reads as written: two per iteration, stopping only when the index equals the length |
| TlsWire.SuppVersWalkOverruns | net/tls.c:338 | with a list of odd length the loop as written never meets its exit test and reads the offset one past the view |
| TlsWire.SuppVersScan | net/tls.c:333-344 | the corrected scan as a loop gives the maximum of every whole 16-bit entry (corrected: only whole 16-bit entries are read; as written: TlsWire.SuppVersReadsAsWritten) |
| TlsWire.CliSuppVers | net/tls.c:333-344 | 0 or RDONE, and the version never drops (corrected: only whole 16-bit entries are read; as written: TlsWire.SuppVersReadsAsWritten) |
| TlsWire.SrvSuppVers | net/tls.c:351-359 | 0 exactly when the two version bytes are missing; otherwise RDONE with the larger of the old version and the one read |
| TlsWire.AlpnRead | net/tls.c:316-324 | the 16-bit protocol list, kept whole |
| TlsWire.ExtRead | net/tls.c:365-398 | a view shorter than the header gives 0; the version never drops; a host name comes only with RCLIENT_HELLO_SNI, and an ALPN list exactly with RHELLO_ALPN (corrected: the server_name and supported_versions walks read only what fits; as written: TlsWire.NameOverrunAsWritten, TlsWire.SuppVersReadsAsWritten) |
| TlsWire.ExtReadScan | net/tls.c:365-398 | the extension dispatch, with the corrected server_name and supported_versions walks as loops, gives ExtRead (corrected; as written: TlsWire.NameOverrunAsWritten, TlsWire.SuppVersReadsAsWritten) |
| TlsWire.ExtensionFields | net/tls.c:365-398 | reading an encoded extension gives its type and body and consumes exactly it |
| TlsWire.ExtReadSkipsUnknown | net/tls.c:381-397 | an uninterpreted extension is skipped with RDONE, nothing set |
| TlsWire.ExtReadSni | net/tls.c:383-385 | a server_name extension with one host_name entry gives the host name |
| TlsWire.ExtReadAlpn | net/tls.c:386-388 | an ALPN extension gives its protocol list |
| TlsWire.ExtsData | net/tls.c:402-410 | None exactly when the 16-bit prefix or its block does not fit; otherwise the data is the prefix, the block and the rest the view is shifted to |
| TlsWire.CertsRead | net/tls.c:421-439 | RCERT exactly when a certificate is found; a short list length gives 0 with the view unchanged; otherwise the whole list is consumed |
| TlsWire.CertsReadFirst | net/tls.c:421-439 | a list whose first certificate is cert gives cert and consumes the whole list |
| TlsWire.AlpnNext | net/tls.c:566-573 | one 8-bit length-prefixed name and its size plus 1, or 0 |
| TlsWire.AlpnProtocolsRoundTrip | net/tls.c:566-573 | walking an encoded protocol list gives its names back in order |
| TlsWire.VerStr | net/tls.c:558-562 | "unknown" exactly outside 0x0301 to 0x0304; 0x0303 is "TLSv1.2" |
| TlsWire.VerStrInjective | net/tls.c:558-562 | distinct known versions have distinct names |
| TlsReader.Step | net/tls.c:444-551 | a pass that goes on makes progress, and one that changes err stops with RERR |
| TlsReader.Run | net/tls.c:444-551 | a call always ends in a pass that returns |
| TlsReader.RecPhase | net/tls.c:452-466 | R_REC: MORE while the record is incomplete, its error, R_HSHAKE for a handshake record, ENOTSUPP otherwise; stated by HandshakeRecordPass, NonHandshakeRecord and RecordErrors |
| TlsReader.HshakePhase | net/tls.c:468-503 | R_HSHAKE: RDONE at the end of the record, otherwise the message type decides the next state or result; stated by ClientHelloPass, RecordExhausted and UnknownHandshake |
| TlsReader.HelloPhase | net/tls.c:505-517 | R_CLIHEL and R_SRVHEL: the hello fields are read and its extensions come next; stated by HelloReadPass |
| TlsReader.HelExtsPhase | net/tls.c:519-527 | R_HEL_EXTS: the view is narrowed to the extension block, EDATA when it does not fit |
| TlsReader.HelExtPhase | net/tls.c:529-540 | R_HEL_EXT: one extension per pass, back to R_HSHAKE at the end; stated by ExtWalkEnds, ExtWalkSurfaces and ExtWalkSkipsUnknown |
| TlsReader.CertsPhase | net/tls.c:542-547 | R_CERTS: the first certificate is reported, and an error keeps err |
| TlsReader.NonHandshakeRecord | net/tls.c:459-465 | a record that is not a handshake gives RERR with -ENOTSUPP |
| TlsReader.RecordErrors | net/tls.c:452-457 | a bad version gives RERR with -EVERSION; a short record gives RMORE; neither leaves the record state |
| TlsReader.RecordExhausted | net/tls.c:469-472 | an exhausted record gives RDONE and goes back to reading records |
| TlsReader.UnknownHandshake | net/tls.c:500-501 | an unknown handshake type gives RERR with -ENOTSUPP |
| TlsReader.StepErrCodes | net/tls.c:444-551 | a pass that fails stores the negation of one of the reader's error codes |
| TlsReader.RunErrCodes | net/tls.c:444-551 | a call that changes err returns RERR, with a negated error code |
| TlsReader.ExtWalkEnds | net/tls.c:530-533 | an empty extension block goes on with the handshake messages |
| TlsReader.ExtWalkSurfaces | net/tls.c:535-539 | a server_name or ALPN extension is reported with its value, the walk left at the next extension |
| TlsReader.ExtWalkSkipsUnknown | net/tls.c:529-540 | an uninterpreted extension is skipped |
| TlsReader.StepVersion | net/tls.c:468-547 | no pass after the record state lowers the version, and no pass that goes on returns to it |
| TlsReader.RunVersion | net/tls.c:444-551 | a call that starts past the record state never lowers the version |
| TlsReader.HandshakeRecordPass | net/tls.c:452-466 | a handshake record stores its version and body and goes on to the messages |
| TlsReader.ClientHelloPass | net/tls.c:468-503 | a client hello message stores its body and type and goes on to the hello |
| TlsReader.HelloReadPass | net/tls.c:505-510 | a client hello that reads gives RCLIENT_HELLO with its fields stored |
| TlsReader.ClientHelloRecord | net/tls.c:444-551 | a handshake record with one client hello gives RCLIENT_HELLO with its version, session ID and ciphers, at its extensions |
| TlsReader.Reader.constructor | net/tls.c:444-451 | a zero-filled reader |
| TlsReader.Reader.Input | net/tls.h:52-53 | only the input changes |
| TlsReader.Reader.Read | net/tls.c:444-551 | the new state and result are Run's |
| TlsReader.Reader.Pass | net/tls.c:448-550 | one pass equals Step |
| TlsReader.Reader.RecordPass | net/tls.c:452-466 | the R_REC pass equals Step |
| TlsReader.Reader.HandshakePass | net/tls.c:468-503 | the R_HSHAKE pass equals Step |
| TlsReader.Reader.HelloPass | net/tls.c:505-517 | the hello passes equal Step |
| TlsReader.Reader.ExtsPass | net/tls.c:519-527 | the R_HEL_EXTS pass equals Step |
| TlsReader.Reader.ExtPass | net/tls.c:529-540 | the R_HEL_EXT pass equals Step |
| TlsReader.Reader.CertsPass | net/tls.c:542-547 | the R_CERTS pass equals Step |
| Pe.ErrStr | misc/pe.c:33-40 | ESYS gives the system message, an unknown code gives "", a known code gives its own message |
| Pe.ErrStrNamesReaderErrors | misc/pe.c:9-40 | every error the reader stores has a non-empty message of its own |
| Pe.Dirs | misc/pe.c:239-247 | one data-directory entry per 8 bytes |
| Pe.Sects | misc/pe.c:257-279 | one section header per 40 bytes |
| Pe.RealOffset | misc/pe.c:61-74 | -1 or a 32-bit file offset |
| Pe.RealOffsetFirst | misc/pe.c:61-74 | the first section holding the address decides the offset, with -1 when its virtual size exceeds its raw size |
| Pe.RealOffsetNone | misc/pe.c:61-74 | no section holding the address gives -1 |
| Pe.RealOffsetScan | misc/pe.c:61-74 | the C loop gives RealOffset |
| Pe.CoffHdr | misc/pe.c:96-115 | a bad signature or flags gives its error; otherwise the machine, section count, time and optional header size |
| Pe.WinOverrunAsWritten | misc/pe.c:136-145 | a 28-byte PE32 optional header passes the guard as written, though its directory count lies past its end, and the directory room as written seems ample; the corrected reader gives EOHDR |
| Pe.OptHdr | misc/pe.c:117-176 | a header shorter than its standard part gives ELARGE, as the C does, and an unknown magic EMAGIC; success exactly when both directories are found, the directory array lying inside the header after the windows fields with at least two entries (corrected; as written: Pe.WinOverrunAsWritten) |
| Pe.OptDirs | misc/pe.c:160-176 | the directory count must fit and be at least 2 |
| Pe.ImportEntries | misc/pe.c:281-297 | the number of entries before the first null entry, counting only entries that fit (corrected: only entries that fit in the data are read; as written: Pe.ImportReadsAsWritten) |
| Pe.ImportEntriesSpec | misc/pe.c:281-297 | the entries counted are exactly the non-null ones before the end or the first null one |
| Pe.ImportOverrunAsWritten | misc/pe.c:286 | with 20 bytes holding one non-null entry and no terminator, the loop as written reads a second entry wholly past the data, while the corrected walk counts one entry |
| Pe.ImportReadsAsWritten | misc/pe.c:286-289 | the offsets of the import entries the loop reads as written, over the data and the memory after it |
| Pe.ImportWalkOverruns | misc/pe.c:286 | at a buffer address no smaller than the data length, when no entry that fits is null, the loop as written reads an entry that does not fit in the data |
| Pe.ImportScan | misc/pe.c:281-297 | the corrected walk as a loop gives ImportEntries (corrected: only entries that fit in the data are read; as written: Pe.ImportReadsAsWritten) |
| Pe.Step | misc/pe.c:188-328 | one pass keeps the reader invariant, and a pass that goes on makes progress |
| Pe.Run | misc/pe.c:188-328 | a call ends in a pass that returns, with the invariant kept |
| Pe.Valid | misc/pe.c:188-328 | the invariant between passes: each gather is for the size its next state reads, and the views walked with pointers hold whole entries; Step keeps it |
| Pe.Gather | misc/pe.c:200-212 | the gather contract: take what is missing of need bytes, the data ready exactly when all of it is there |
| Pe.GatherPhase | misc/pe.c:199-212 | R_GATHER keeps Valid and, when it goes on, lowers the measure |
| Pe.HdrPhase | misc/pe.c:218-225 | R_HDR keeps Valid |
| Pe.PePhase | misc/pe.c:227-231 | R_PE keeps Valid and, when it goes on, lowers the measure |
| Pe.OptPhase | misc/pe.c:233-237 | R_OPTHDR keeps Valid |
| Pe.DdPhase | misc/pe.c:239-247 | R_DD keeps Valid and, when it goes on, lowers the measure |
| Pe.SectGatherPhase | misc/pe.c:249-255 | R_SECT_GATHER keeps Valid and, when it goes on, lowers the measure |
| Pe.SectPhase | misc/pe.c:257-279 | R_SECT keeps Valid and, when it goes on, lowers the measure |
| Pe.SeekPhase | misc/pe.c:303-321 | a zero-sized directory is skipped, otherwise the pass returns, and Valid is kept |
| Pe.ImportPhase | misc/pe.c:281-297 | R_IDATA_COPY keeps Valid and, when it goes on, lowers the measure (corrected; as written: Pe.ImportReadsAsWritten) |
| Pe.DosHeader | misc/pe.c:214-225 | the first call fails with ESIG unless the header starts with "MZ", and otherwise seeks to the signature at the header's last field |
| Pe.GatherMore | misc/pe.c:55-59 | while bytes are short, GATHER gives MORE, keeps all input and advances the offset |
| Pe.GatherComplete | misc/pe.c:199-212 | a complete gather takes only what is missing and goes on with the structure |
| Pe.RunErrors | misc/pe.c:55-57 | a failed call returns ERR with a code that has a message; a call that goes on leaves err alone |
| Pe.CoffStep | misc/pe.c:227-231 | a bad COFF header fails the call with its code; a good one gathers the optional header of its size |
| Pe.DirsInOrder | misc/pe.c:239-247 | after HDR each data-directory entry comes back from one call as DD, in order |
| Pe.DirsDone | misc/pe.c:239-247 | with the directories used up, the next call starts on the section table |
| Pe.SectionsTooLarge | misc/pe.c:249-255 | a section table over 64 KiB fails with ELARGE |
| Pe.SectStep | misc/pe.c:257-279 | one call reports the first unreported section header as SECT and appends it to the list |
| Pe.SectionsDone | misc/pe.c:257-279 | with every header reported, the next call goes on to the import directory |
| Pe.ImportSkipped | misc/pe.c:303-312 | a zero-sized import directory is skipped |
| Pe.ExportAbsent | misc/pe.c:314-321 | a zero-sized export directory ends with DONE |
| Pe.DirectorySeek | misc/pe.c:303-321 | a non-empty directory is read from the offset real_offset gives, with a seek, or fails with ELARGE when the offset is -1 |
| Pe.ImportCopied | misc/pe.c:281-297 | the import copy appends the entries before the first null entry |
| Pe.ImportEmpty | misc/pe.c:281-297 | a directory that starts with the null entry adds nothing and goes on to the export directory |
| Pe.Reader.constructor | misc/pe.c:42-45 | a zeroed reader |
| Pe.Reader.Input | misc/pe.h:123 | only the input changes |
| Pe.Reader.Read | misc/pe.c:188-328 | the new state and result are Run's |
| Pe.Reader.Pass | misc/pe.c:195-327 | one pass equals Step |
| Pe.Reader.HeaderPass | misc/pe.c:214-247 | the passes up to the section table equal Step |
| Pe.Reader.TablePass | misc/pe.c:281-324 | the directory passes equal Step |
| Pe.Reader.GatherPass | misc/pe.c:199-212 | R_GATHER equals GatherPhase |
| Pe.Reader.HdrPass | misc/pe.c:218-225 | R_HDR equals HdrPhase |
| Pe.Reader.CoffPass | misc/pe.c:227-231 | R_PE equals PePhase |
| Pe.Reader.OptPass | misc/pe.c:233-237 | R_OPTHDR equals OptPhase |
| Pe.Reader.DdPass | misc/pe.c:239-247 | R_DD equals DdPhase |
| Pe.Reader.SectGatherPass | misc/pe.c:249-255 | R_SECT_GATHER equals SectGatherPhase |
| Pe.Reader.SectPass | misc/pe.c:257-279 | R_SECT equals SectPhase |
| Pe.Reader.ImportPass | misc/pe.c:281-297 | R_IDATA_COPY equals ImportPhase |
| Pe.Reader.SeekPass | misc/pe.c:303-321 | a directory seek equals SeekPhase |
| DnsMsg.MinTtl | net/dns-client.c:715 | the least TTL of the records, starting from 0xffffffff, is no larger than any of them |
| DnsMsg.KeptOf | net/dns-client.c:755-775 | the records the copy keeps, in order: class IN, and type A with 4 bytes or AAAA with 16 bytes for the family asked |
| DnsMsg.Records | net/dns-client.c:621-633 | the records ans_nrecs walks: the readable ones before the first empty name; stated by FirstEmptyAt and WalkEnds |
| DnsMsg.FirstEmptyAt | net/dns-client.c:629-633 | FirstEmpty is the first record with an empty name |
| DnsMsg.CountRecords | net/dns-client.c:613-706 | the loop counts the records of the family kept before the walk stops |
| DnsMsg.WalkEnds | net/dns-client.c:613-706 | where the walk stops is where the kept records end |
| DnsMsg.CopyRecords | net/dns-client.c:747-778 | the loop gives the kept records' addresses in order and their least TTL (corrected: the copy stops at the first empty name, as the counting pass does; as written: DnsMsg.CopiedAsWritten) |
| DnsMsg.CopyOverrunAsWritten | net/dns-client.c:747-778 | with an empty second name, one record is counted and, as written, two are copied |
| DnsMsg.CopiedAsWritten | net/dns-client.c:747-778 | the copy pass as written keeps every readable record, with no stop at an empty name |
| DnsMsg.CountMatchesCopy | net/dns-client.c:613-778 | the corrected copy writes exactly as many records as were counted |
| DnsMsg.Mapped | net/dns-client.c:808-824 | the IPv4-mapped IPv6 form ::ffff:a.b.c.d of an IPv4 address (RFC 4291 section 2.5.5.2) |
| DnsMsg.Lower | net/dns-client.c:171 | the ASCII lower case the case-insensitive hash folds to, of the same length, changing exactly the letters A-Z; HashesAgree uses it to relate the two hashes |
| DnsMsg.LastColon | net/dns-client.c:853 | -1 exactly when there is no ':', otherwise the last ':' |
| DnsMsg.SplitLast | net/dns-client.c:853 | the text split at its last colon into address and port |
| DnsMsg.IpSplit | net/dns-client.c:851-871 | ffip_split: "IP[:PORT]" with a bracketed IPv6 address, None for the -1 cases; stated by the Split lemmas |
| DnsMsg.Bracketed | net/dns-client.c:855-864 | the bracketed branch: at least "[x]" and a port after any colon |
| DnsMsg.SplitAddressOnly | net/dns-client.c:851-871 | text without ':' is the address alone |
| DnsMsg.SplitAddressPort | net/dns-client.c:851-871 | "ip:port" splits at the colon |
| DnsMsg.SplitEmptyPort | net/dns-client.c:867-868 | "ip:" is refused |
| DnsMsg.SplitBracketPort | net/dns-client.c:855-864 | "[v6]:port" gives the address without brackets, and the port |
| DnsMsg.SplitBracketOnly | net/dns-client.c:855-864 | "[v6]" gives the address without brackets, and no port |
| DnsClient.ServNext | net/dns-client.c:962-968 | the pick is the cursor, and the new cursor is a valid server |
| DnsClient.RoundRobin | net/dns-client.c:962-968 | within one cycle the j-th pick is j servers after the cursor, wrapping around |
| DnsClient.FairCycle | net/dns-client.c:962-968 | any |servs| successive picks use every server exactly once |
| DnsClient.Consistent | net/dns-client.c:171-229 | the resolver invariant: a valid server cursor, every query stored under the case-insensitive hash of its name with valid results, and a server while a query has tries left; every operation keeps it (the Consistent lemmas) |
| DnsClient.AddServer | net/dns-client.c:873-909 | ffdnscl_serv_add: -1 on a malformed address or port, otherwise the server appended, port 53 by default, and the cursor reset; stated by AddServerResets, AddServerDefaultPort and ConsistentAddServer |
| DnsClient.Send1 | net/dns-client.c:363-425 | query_send1: connect when needed, send AAAA then A for the families needed, a failed send closing the link; stated by Send1Outcome |
| DnsClient.Send | net/dns-client.c:343-360 | query_send: one try spent per attempt on the next server in turn, -1 to every waiter once the tries run out; stated by SendBudget and ConsistentSend |
| DnsClient.Send1Outcome | net/dns-client.c:363-425 | success leaves the server connected, with one more query per family sent; failure leaves it disconnected |
| DnsClient.AddrsOf | net/dns-client.c:808-824 | one 16-byte address per stored address |
| DnsClient.Notify | net/dns-client.c:830-834 | one ondone call per waiter, in order, each with the same result |
| DnsClient.Fin | net/dns-client.c:787-843 | query_fin: the query leaves the table and each waiter is called once, in order, with the same result; stated by Completion |
| DnsClient.Lookup | net/dns-client.c:174-181 | a key found holds a pending query whose name is byte for byte the name |
| DnsClient.FindQuery | net/dns-client.c:538-610 | a key found is in the table (corrected: the response is looked up under the case-insensitive hash the table is keyed by; as written: DnsClient.FindQueryAsWritten) |
| DnsClient.Receive | net/dns-client.c:482-535 | ans_proc: a response that finds its query and answers a family it still needs is taken, anything else is discarded; stated by Discard, Completion and ConsistentReceive (corrected lookup; as written: DnsClient.FindQueryAsWritten) |
| DnsClient.ProcResp | net/dns-client.c:709-784 | a result made is valid and of the family asked |
| DnsClient.CacheNotes | net/dns-client.c:529-532 | one oncomplete call per stored result |
| DnsClient.Answered | net/dns-client.c:493-515 | the waiters, the name and the tries left are unchanged |
| DnsClient.FirstIndex | net/dns-client.c:318-330 | the first position of the pair among the waiters, or their count |
| DnsClient.SwapRemove | net/dns-client.c:333 | ffarr_rmswapT: the last element moves into the removed position; stated by SwapRemoveSpec |
| DnsClient.SwapRemoveSpec | net/dns-client.c:333 | removing position i leaves one element fewer, the multiset without that element, and every other position unchanged except i, which holds the old last element |
| DnsClient.Cancel | net/dns-client.c:309-341 | query_rmuser: 1 without a query, on a collision or without a matching waiter, otherwise the first matching waiter swap-removed; stated by CancelMisses, CancelRemovesOne and ConsistentCancel |
| DnsClient.Resolve | net/dns-client.c:158-248 | ffdnscl_resolve: a hit adds a waiter, a collision or an unencodable name tells the caller -1, a new name is stored and sent; stated by ResolveHit, ResolveRefused, ResolveNew and ConsistentResolve (corrected: a collision leaves the pending query in place; as written: DnsClient.ResolveFoundAsWritten) |
| DnsClient.Expire | net/dns-client.c:282-293 | query_onexpire: -1 to every waiter with no tries left, otherwise another send; stated by ExpireBudget and ConsistentExpire |
| DnsClient.SendBudget | net/dns-client.c:343-360 | either an attempt succeeds and the query pends with that many fewer tries, or the tries run out and every waiter is told -1; nothing else changes |
| DnsClient.ExpireBudget | net/dns-client.c:282-293 | with no tries left the query finishes with -1; otherwise it is sent again under the same budget |
| DnsClient.ExpiriesBudget | net/dns-client.c:282-293 | over any run of expiries, attempts made plus tries left equal the tries the query had |
| DnsClient.ExpiriesEnd | net/dns-client.c:282-293 | after more expiries than it has tries, a query is finished |
| DnsClient.ResolveHit | net/dns-client.c:174-188 | a pending query with the same name gets one more waiter, appended, and nothing is sent |
| DnsClient.ResolveRefused | net/dns-client.c:239-247 | a hash collision or a name the encoder refuses tells only the caller -1, once, and leaves the resolver as it was |
| DnsClient.ResolveNew | net/dns-client.c:191-234 | a new query is stored under its hash and sent: it pends with its waiter, or, when every attempt fails, the caller is told -1 after exactly maxTries attempts |
| DnsClient.CancelMisses | net/dns-client.c:309-341 | a cancel fails, changing nothing, exactly when there is no query, the name collides, or no waiter is the pair |
| DnsClient.CancelRemovesOne | net/dns-client.c:309-341 | a cancel removes one waiter equal to the pair, moving the last into its place; nothing else changes |
| DnsClient.FindQueryByName | net/dns-client.c:538-610 | a response names a query exactly when a pending query has that name, with the root dot stripped |
| DnsClient.Discard | net/dns-client.c:538-610 | a datagram changes nothing unless accepted; it is accepted exactly when it is well-formed and names a pending query with the ID of a family still needed; an accepted one changes the state |
| DnsClient.AnsweredOnce | net/dns-client.c:493-504 | each family is answered at most once while the query pends |
| DnsClient.StatusRule | net/dns-client.c:506-515 | an error RCODE is kept only while nothing is stored; NOERROR with records stores them and their least TTL; NOERROR without records sets -1 |
| DnsClient.Completion | net/dns-client.c:524-535 | once neither family is needed, the query leaves the table, the cache hook is called per result, and every waiter is called once, in order |
| DnsClient.IpsForm | net/dns-client.c:808-824 | every address of the result is 16 bytes, IPv4 ones in mapped form |
| DnsClient.IpsTotal | net/dns-client.c:797-808 | the address list has one entry per address stored in the results |
| DnsClient.I4 | net/dns-client.c:797-802 | 0 or a position of the result list |
| DnsClient.HashAsymmetryAsWritten | net/dns-client.c:588 | a pending name whose case-sensitive hash differs from its lower-case form's has an upper-case letter, and its response is never found as written, while the corrected lookup finds it |
| DnsClient.LowerCaseFoundAsWritten | net/dns-client.c:588 | a pending name with no upper-case letter is found as written, at the same key as the corrected lookup |
| DnsClient.HashesAgree | net/dns-client.c:171 | the case-insensitive hash is the case-sensitive hash of the lower-cased name, the relation the two lemmas above rely on |
| DnsClient.FindQueryAsWritten | net/dns-client.c:588-596 | ans_find_query as written: the response name is hashed with the case-sensitive hash; HashAsymmetryAsWritten shows what it misses |
| DnsClient.CollisionFreesLiveAsWritten | net/dns-client.c:178-181 | as written, a query still in the table is freed exactly on a collision; the callbacks agree with the corrected Resolve, and so does the new state when nothing is freed |
| DnsClient.ResolveFoundAsWritten | net/dns-client.c:174-247 | the lookup part of ffdnscl_resolve as written: a name mismatch frees the found query, which stays in the table, and tells the caller -1; a hit appends the waiter |
| DnsClient.TtlOutOfBoundsAsWritten | net/dns-client.c:529 | an error reply to the only query completes with nothing stored, and the TTL index read as written is -1 |
| DnsClient.TtlIndexAsWritten | net/dns-client.c:529 | the TTL index ans_proc reads as written, nres - 1 |
| DnsClient.TeardownNotifies | net/dns-client.c:262-270 | the corrected teardown calls every waiter of every pending query with -1 (corrected; as written: DnsClient.FreeAsWritten) |
| DnsClient.TeardownDropsAsWritten | net/dns-client.c:250-270 | teardown as written calls no waiter, while the corrected one calls each |
| DnsClient.FreeAsWritten | net/dns-client.c:262-270 | ffdnscl_free as written: the table and the servers are emptied and no waiter is called |
| DnsClient.ConsistentSend | net/dns-client.c:343-360 | query_send keeps the table invariant |
| DnsClient.ConsistentExpire | net/dns-client.c:282-293 | expiry keeps the invariant |
| DnsClient.ConsistentResolve | net/dns-client.c:158-248 | resolve keeps the invariant |
| DnsClient.ConsistentAnswered | net/dns-client.c:493-515 | a family gets a result only while its flag is set, and the flag is cleared with it |
| DnsClient.ConsistentReceive | net/dns-client.c:482-535 | a response keeps the invariant |
| DnsClient.ConsistentAddServer | net/dns-client.c:873-909 | adding a server keeps the invariant |
| DnsClient.AddServerResets | net/dns-client.c:873-909 | the server is appended and the cursor moves to the first; a malformed address or port changes nothing |
| DnsClient.AddServerDefaultPort | net/dns-client.c:888 | a server given without a port uses port 53 |
| DnsClient.ConsistentCancel | net/dns-client.c:309-341 | cancel keeps the invariant |
| DnsResolver.IpsOrder | net/dns-client.c:808-824 | the result lists the addresses of the last IPv4 result first, then the other result's |
| DnsResolver.Scan | net/dns-client.c:797-802 | the totals loop gives the address count and the start position I4 |
| DnsResolver.CopyAddrs | net/dns-client.c:812-822 | one result's addresses, IPv4 ones in mapped form |
| DnsResolver.Collect | net/dns-client.c:808-824 | the copy loop gives the address list in query_fin's order |
| DnsResolver.NotifyAll | net/dns-client.c:830-834 | the ondone calls equal Notify |
| DnsResolver.CacheAll | net/dns-client.c:529-532 | the oncomplete calls equal CacheNotes |
| DnsResolver.Respond | net/dns-client.c:493-515 | the query after a response equals Answered (corrected: the copy stops at the first empty name, as the counting pass does; as written: DnsMsg.CopiedAsWritten) |
| DnsResolver.Resolver.constructor | net/dns-client.c:145-156 | no servers, no queries, cursor at the start, and the invariant holds |
| DnsResolver.Resolver.AddServer | net/dns-client.c:873-909 | the new state and result equal AddServer, and the invariant is kept |
| DnsResolver.Resolver.SendOne | net/dns-client.c:363-425 | one send equals Send1 on the chosen server |
| DnsResolver.Resolver.Attempt | net/dns-client.c:346-359 | one try is spent, and success or failure continues the Send recursion at the next attempt |
| DnsResolver.Resolver.SendLoop | net/dns-client.c:343-360 | the notes, the attempts and the new state equal Send, and the invariant is kept |
| DnsResolver.Resolver.Finish | net/dns-client.c:787-843 | the query is removed and every waiter notified as Fin gives |
| DnsResolver.Resolver.RemoveUser | net/dns-client.c:309-341 | the walk and swap-remove equal Cancel |
| DnsResolver.Resolver.Resolve | net/dns-client.c:158-248 | the result, notes, attempts and new state equal Resolve, and the invariant is kept (corrected: a collision leaves the pending query in place; as written: DnsClient.ResolveFoundAsWritten) |
| DnsResolver.Resolver.Start | net/dns-client.c:191-234 | the new-query path equals Resolve's |
| DnsResolver.Resolver.Expire | net/dns-client.c:282-293 | the new state and notes equal Expire, and the invariant is kept |
| DnsResolver.Resolver.Receive | net/dns-client.c:482-535 | the new state, cache calls and notes equal Receive, and the invariant is kept (corrected: the response is looked up under the case-insensitive hash the table is keyed by; as written: DnsClient.FindQueryAsWritten) |
| DnsResolver.Resolver.Take | net/dns-client.c:482-535 | a response to a known query and family equals Got |
| DnsResolver.Resolver.FinishFirst | net/dns-client.c:250-260 | the least key is finished, and its notes followed by the rest's teardown are the whole teardown |
| DnsResolver.Resolver.Free | net/dns-client.c:262-270 | every pending query is finished with -1 in key order, as Drain gives, and the table and servers are emptied (corrected: the C frees pending queries without calling their waiters; as written: DnsClient.FreeAsWritten) |

## Left out

- Sockets, AIO events, the timer and the retry timeout, and logging are left out. The outcome of each send attempt is a parameter (`net(k)`), and the send buffer and the read path (`ans_read`, `serv_init`, `serv_fin`) are not modelled byte for byte.
- Memory-allocation failures are left out: `nomem`, `ffslice_allocT`, `ffarr_allocT`, the PE reader's `ESYS` path and `ffmem_alloc` in `ffdnscl_serv_add`. The model's allocations cannot fail.
- The DNS message codec (`dns.h`) is not part of this model. A response is given already decoded (`DnsMsg.Msg`), and query encoding (`query_prep`) is a function-valued parameter of `Env`.
- The CRC-32 hashes (`ffcrc32_get`, `ffcrc32_iget`) are function-valued parameters of `Env`. `DnsClient.HashesAgree` ties them: the case-insensitive one is the case-sensitive one applied to `Lower(name)`. The as-written lookup and its lemmas require it; the corrected model needs no relation between them.
- NewMsgHeader and Writer.NewMsg model the 64-bit build (`FF_64`) only. A 32-bit build refuses every message over 0xffff bytes with FFWEBSKT_RERR.
- Random transaction IDs are parameters of `Resolve`.
- `ffdnscl_conf_init` defaults (one try, IPv6 on) are not fixed. `maxTries` and `enableIpv6` are free parameters of `Env`.
- `ffdnscl_serv_add` copies the server text into a fixed buffer, which truncates long text. The model keeps the text whole.
- `ffdnscl_serv_add` leaks `ansbuf` on its error path. Memory is not modelled.
- Callbacks are outputs, in call order. Re-entrancy is left out: a callback that calls back into the resolver.
- DnsResolver.Resolver.Resolve requires a server, or `maxTries == 0`: with no server, `serv_next` dereferences a null cursor.
- `fftls_cipher_name` and its cipher table are left out: a static lookup table with no logic.
- SHA-1 and base64 in `ffwebskt_accept` are left out. The accept value is an input.
- `ffstr_gather` is defined elsewhere in the library; `Pe.Gather` gives it a gather contract. Under that contract, a gather of 0 bytes returns MORE, so a PE with no section reads as MORE forever.
- `ffpe_close` is left out: it only frees buffers.
- The as-written loops `TlsWire.SuppVersReadsAsWritten` and `Pe.ImportReadsAsWritten` take an iteration bound, since the C loops need not end; the memory after the PE data is a parameter.
- `ffip4_parse` and `ffstr_toint` are defined elsewhere in the library; `IpText` models them from what net/test-ipaddr.c checks.

## Findings

| source | as written | input that shows it | evidently intended | confidence | as-written member | corrected member |
|---|---|---|---|---|---|---|
| net/dns-client.c:588 | the response name is hashed with the case-sensitive `ffcrc32_get`, while queries are stored under the case-insensitive `ffcrc32_iget` | a name with an upper-case letter whose hash differs from that of its lower-case form | look the response up under the hash the table is keyed by | not executed | DnsClient.HashAsymmetryAsWritten | DnsClient.FindQueryByName |
| net/dns-client.c:178-181 | on a hash collision `goto fail` frees the pending query that is still in the table | a name whose hash equals a pending query's but whose text differs | report -1 to the caller and leave the table alone | not executed | DnsClient.CollisionFreesLiveAsWritten | DnsClient.ResolveRefused |
| net/dns-client.c:529 | the TTL is read at `ttl[nres - 1]` also when `nres` is 0 | IPv6 off, and an error RCODE answering the A query | read no TTL when no result is stored | not executed | DnsClient.TtlOutOfBoundsAsWritten | DnsClient.Completion |
| net/dns-client.c:262-270 | teardown frees pending queries without calling their waiters | a resolver freed while a query is pending | call each waiter with -1 | not executed | DnsClient.TeardownDropsAsWritten | DnsResolver.Resolver.Free |
| net/dns-client.c:747-778 | the copy loop keeps going past an answer with an empty name, where the counting loop stopped | an A response whose second record has an empty name | stop the copy where the count stopped | not executed | DnsMsg.CopyOverrunAsWritten | DnsMsg.CountMatchesCopy |
| misc/pe.c:136-145 | the windows fields and the directory count are read without checking the header's length | a PE32 optional header of 28 bytes | refuse a header too short for its windows fields | not executed | Pe.WinOverrunAsWritten | Pe.OptHdr |
| misc/pe.c:286 | the import loop's bound mixes a pointer with a length | 20 bytes holding one non-null entry and no terminator | walk only the entries that fit in the data | not executed | Pe.ImportOverrunAsWritten | Pe.ImportEntriesSpec |
| net/tls.c:290-294 | the guard compares the name length n with the whole list length, not with what is left after the 3-byte entry header | the server_name list 00 03 00 00 03 | read a name only when all its bytes are present | not executed | TlsWire.NameOverrunAsWritten | TlsWire.NameListScan |
| net/tls.c:338 | the loop exits only when the index equals the length exactly, stepping by 2 | a supported_versions list of one byte | read only whole 16-bit entries | not executed | TlsWire.SuppVersOverrunAsWritten | TlsWire.SuppVersScan |
| net/websocket.c:177-181 | each input chunk is unmasked from key byte 0 | a masked payload arriving as 1 + 3 bytes | carry the key phase over from chunk to chunk | not executed | WebSocket.MaskPhaseLostAsWritten | WebSocket.ChunksCompose |
| net/websocket.c:209-216 | the length code 126 or 127 is not written into the second header byte | a 200-byte message | write the code that announces the extended length | not executed | WebSocket.LengthMarkerLostAsWritten | WebSocket.NewMsgHeaderDecodes |
| url.h:42-44 | the hyphen rule is checked only when a dot follows the label | "a.b-" | refuse a final label that ends with a hyphen | not executed | Url.TrailingHyphenAccepted | Url.StrictLabelEnds |
