/** Host-name syntax check and "ip[:port]" socket-address parsing
    (url.h). A name is a sequence of dot-separated labels of 1 to 63
    letters, digits and hyphens (RFC 1035 section 2.3.1, RFC 1123 section
    2.1), no label starts with a hyphen and no label followed by a dot
    ends with one (RFC 952), the whole name is at most 253 bytes, and a
    final label that begins like an IDNA "xn--" label (RFC 3490 section
    5) must be at least 8 bytes long. */
module Url {
  import opened Bytes
  import IpText

  const Dot: byte := 0x2e
  const Hyphen: byte := 0x2d
  const MaxNameLen: nat := 253
  const MaxLabelLen: nat := 63
  /** "xn--" */
  const AcePrefix: seq<byte> := [0x78, 0x6e, 0x2d, 0x2d]
  /** Length of the shortest final label accepted after an "xn--" start. */
  const MinAceLabel: nat := 8

  predicate IsAlpha(c: byte)
  {
    (0x61 <= c <= 0x7a) || (0x41 <= c <= 0x5a)
  }

  predicate IsAlnum(c: byte)
  {
    IsAlpha(c) || IpText.IsDigit(c)
  }

  predicate IsLabelChar(c: byte)
  {
    IsAlnum(c) || c == Hyphen
  }

  /** Length of the label that ends at position i (number of non-dot
      bytes immediately before i). */
  function LabelLen(s: seq<byte>, i: nat): (n: nat)
    requires i <= |s|
    ensures n <= i
  {
    if i == 0 || s[i - 1] == Dot then 0 else 1 + LabelLen(s, i - 1)
  }

  /** The label that ends at position i. */
  function LabelBefore(s: seq<byte>, i: nat): seq<byte>
    requires i <= |s|
  {
    s[i - LabelLen(s, i)..i]
  }

  /** Progress of the "xn--" recogniser over a label: the label's length
      when it starts with 'x' or 'X' and then follows "n--" for as far as
      it goes, otherwise 0. */
  function AceProgress(lab: seq<byte>): nat
  {
    if |lab| == 0 || !(lab[0] == 0x78 || lab[0] == 0x58) then 0
    else if lab[1..Min(|lab|, 4)] == AcePrefix[1..Min(|lab|, 4)] then |lab|
    else 0
  }

  /** What the name check demands of the byte at position i, given the
      bytes before it. */
  predicate PosOk(s: seq<byte>, i: nat)
    requires i < |s|
  {
    && (LabelLen(s, i) == 0 ==> IsAlnum(s[i]))
    && (s[i] != Dot ==> IsLabelChar(s[i]) && LabelLen(s, i) < MaxLabelLen)
    && (s[i] == Dot && i > 0 ==> s[i - 1] != Hyphen)
  }

  /** Every position before i meets what the check demands of it. */
  predicate PrefixOk(s: seq<byte>, i: nat)
    requires i <= |s|
  {
    i == 0 || (PrefixOk(s, i - 1) && PosOk(s, i - 1))
  }

  lemma {:induction false} PrefixOkAt(s: seq<byte>, i: nat, j: nat)
    requires j < i <= |s| && PrefixOk(s, i)
    ensures PosOk(s, j)
    decreases i
  {
    if j < i - 1 {
      PrefixOkAt(s, i - 1, j);
    }
  }

  /** The names ffurl_isdomain accepts. */
  predicate ValidDomain(s: seq<byte>)
  {
    && |s| <= MaxNameLen
    && PrefixOk(s, |s|)
    && LabelLen(s, |s|) > 0
    && !(0 < AceProgress(LabelBefore(s, |s|)) < MinAceLabel)
  }

  function NextAce(xn: nat, c: byte): nat
  {
    if xn == 0 then 0
    else if xn < |AcePrefix| then (if c == AcePrefix[xn] then xn + 1 else 0)
    else xn + 1
  }

  lemma AceStep(lab: seq<byte>, c: byte)
    requires |lab| > 0
    ensures AceProgress(lab + [c]) == NextAce(AceProgress(lab), c)
  {
    var l2 := lab + [c];
    assert l2[0] == lab[0];
    var m := Min(|lab|, 4);
    var m2 := Min(|l2|, 4);
    if |lab| < 4 {
      assert l2[1..m2] == lab[1..m] + [c];
      assert AcePrefix[1..m2] == AcePrefix[1..m] + [AcePrefix[|lab|]];
      if l2[1..m2] == AcePrefix[1..m2] {
        assert lab[1..m] == l2[1..m2][..m - 1] == AcePrefix[1..m];
        assert c == l2[1..m2][m - 1] == AcePrefix[|lab|];
      }
    } else {
      assert l2[1..m2] == lab[1..m];
    }
  }

  /** A position that fails its demand rules the name out. */
  lemma NotValidAt(s: seq<byte>, i: nat)
    requires i < |s| && !PosOk(s, i)
    ensures !ValidDomain(s)
  {
    if ValidDomain(s) {
      PrefixOkAt(s, |s|, i);
    }
  }

  /** Number of dots in s[..i]. */
  function DotsBefore(s: seq<byte>, i: nat): nat
    requires i <= |s|
  {
    if i == 0 then 0 else DotsBefore(s, i - 1) + (if s[i - 1] == Dot then 1 else 0)
  }

  lemma {:induction false} DotsBeforeCount(s: seq<byte>, i: nat)
    requires i <= |s|
    ensures DotsBefore(s, i) == multiset(s[..i])[Dot]
  {
    if i > 0 {
      DotsBeforeCount(s, i - 1);
      assert s[..i] == s[..i - 1] + [s[i - 1]];
    }
  }

  /** The first byte of a label, a letter or digit, starts the label and
      the "xn--" recogniser. */
  lemma FirstCharStep(s: seq<byte>, i: nat)
    requires i < |s| && PrefixOk(s, i) && LabelLen(s, i) == 0 && IsAlnum(s[i])
    ensures PrefixOk(s, i + 1) && LabelLen(s, i + 1) == 1 && DotsBefore(s, i + 1) == DotsBefore(s, i)
    ensures AceProgress(LabelBefore(s, i + 1)) == if s[i] == 0x78 || s[i] == 0x58 then 1 else 0
  {
    assert LabelBefore(s, i + 1) == [s[i]];
  }

  /** A dot after a label that does not end with a hyphen closes it. */
  lemma DotStep(s: seq<byte>, i: nat)
    requires i < |s| && PrefixOk(s, i) && s[i] == Dot && LabelLen(s, i) > 0 && s[i - 1] != Hyphen
    ensures PrefixOk(s, i + 1) && LabelLen(s, i + 1) == 0 && DotsBefore(s, i + 1) == DotsBefore(s, i) + 1
    ensures AceProgress(LabelBefore(s, i + 1)) == 0
  {
  }

  /** A further label byte extends the label and advances the "xn--"
      recogniser. */
  lemma CharStep(s: seq<byte>, i: nat)
    requires i < |s| && PrefixOk(s, i) && s[i] != Dot && IsLabelChar(s[i])
    requires 0 < LabelLen(s, i) < MaxLabelLen
    ensures PrefixOk(s, i + 1) && LabelLen(s, i + 1) == LabelLen(s, i) + 1
    ensures DotsBefore(s, i + 1) == DotsBefore(s, i)
    ensures AceProgress(LabelBefore(s, i + 1)) == NextAce(AceProgress(LabelBefore(s, i)), s[i])
  {
    assert LabelBefore(s, i + 1) == LabelBefore(s, i) + [s[i]];
    AceStep(LabelBefore(s, i), s[i]);
  }

  /** ffurl_isdomain: the domain level (number of labels) of a valid
      name, -1 otherwise. */
  method IsDomain(name: seq<byte>) returns (r: int)
    ensures ValidDomain(name) ==> r == multiset(name)[Dot] + 1
    ensures !ValidDomain(name) ==> r == -1
  {
    if |name| > MaxNameLen {
      return -1;
    }
    var st := 0;
    var nlabel := 0;
    var level := 1;
    var prevChar: byte := 0;
    var xn := 0;
    var i := 0;
    while i != |name|
      invariant 0 <= i <= |name|
      invariant PrefixOk(name, i)
      invariant st == 0 <==> LabelLen(name, i) == 0
      invariant st == 0 || st == 2
      invariant st == 2 ==> nlabel == LabelLen(name, i)
      invariant LabelLen(name, i) <= MaxLabelLen
      invariant level == DotsBefore(name, i) + 1
      invariant xn == AceProgress(LabelBefore(name, i))
      invariant LabelLen(name, i) >= 2 ==> prevChar == name[i - 1]
      invariant LabelLen(name, i) < 2 ==> prevChar != Hyphen
    {
      var c := name[i];
      if st == 0 {
        if !IsAlpha(c) {
          if !IpText.IsDigit(c) {
            NotValidAt(name, i);
            return -1;
          }
        } else if c == 0x78 || c == 0x58 {
          xn := 1;
        }
        FirstCharStep(name, i);
        st := 2;
        nlabel := 1;
      } else {
        if c == Dot {
          if prevChar == Hyphen {
            NotValidAt(name, i);
            return -1;
          }
          if LabelLen(name, i) == 1 {
            assert LabelLen(name, i - 1) == 0;
            PrefixOkAt(name, i, i - 1);
          }
          DotStep(name, i);
          level := level + 1;
          st := 0;
          xn := 0;
          i := i + 1;
          continue;
        }
        if nlabel == MaxLabelLen {
          NotValidAt(name, i);
          return -1;
        }
        if !IsLabelChar(c) {
          NotValidAt(name, i);
          return -1;
        }
        CharStep(name, i);
        if xn > 0 {
          if xn < |AcePrefix| {
            if c == AcePrefix[xn] {
              xn := xn + 1;
            } else {
              xn := 0;
            }
          } else {
            xn := xn + 1;
          }
        }
        prevChar := c;
        nlabel := nlabel + 1;
      }
      i := i + 1;
    }
    DotsBeforeCount(name, i);
    assert name[..i] == name;
    if st != 2 || (xn > 0 && xn < MinAceLabel) {
      return -1;
    }
    return level;
  }

  /** As written, the hyphen rule is checked only when a dot follows the
      label, so a name whose last label ends with a hyphen passes: "a.b-"
      is accepted with level 2. */
  lemma TrailingHyphenAccepted()
    ensures ValidDomain([0x61, Dot, 0x62, Hyphen])
    ensures !StrictDomain([0x61, Dot, 0x62, Hyphen])
  {
    var s: seq<byte> := [0x61, Dot, 0x62, Hyphen];
    assert LabelLen(s, 0) == 0 && LabelLen(s, 1) == 1 && LabelLen(s, 2) == 0;
    assert LabelLen(s, 3) == 1 && LabelLen(s, 4) == 2;
    assert PosOk(s, 0) && PosOk(s, 1) && PosOk(s, 2) && PosOk(s, 3);
    assert PrefixOk(s, 1);
    assert PrefixOk(s, 2);
    assert PrefixOk(s, 3);
    assert PrefixOk(s, 4);
    assert LabelBefore(s, 4) == [0x62, Hyphen];
  }

  /** The names the check is documented to accept: in addition, the last
      label does not end with a hyphen. */
  predicate StrictDomain(s: seq<byte>)
  {
    ValidDomain(s) && s[|s| - 1] != Hyphen
  }

  /** Corrected ffurl_isdomain: refuses a name whose final label ends
      with a hyphen, like every other label. */
  method IsDomainStrict(name: seq<byte>) returns (r: int)
    ensures StrictDomain(name) ==> r == multiset(name)[Dot] + 1
    ensures !StrictDomain(name) ==> r == -1
  {
    r := IsDomain(name);
    if r > 0 && name[|name| - 1] == Hyphen {
      r := -1;
    }
  }

  /** In a name the corrected check accepts, no label ends with a
      hyphen and every label starts with a letter or digit. */
  lemma StrictLabelEnds(s: seq<byte>, i: nat)
    requires StrictDomain(s) && i < |s| && s[i] != Dot
    ensures i + 1 == |s| || s[i + 1] == Dot ==> s[i] != Hyphen
    ensures i == 0 || s[i - 1] == Dot ==> IsAlnum(s[i])
  {
    PrefixOkAt(s, |s|, i);
    if i + 1 < |s| {
      PrefixOkAt(s, |s|, i + 1);
    }
  }

  /** An accepted name neither starts nor ends with a dot and has no
      empty label between two dots. */
  lemma NoEmptyLabels(s: seq<byte>)
    requires ValidDomain(s)
    ensures s[0] != Dot && s[|s| - 1] != Dot
    ensures forall i :: 0 < i < |s| && s[i] == Dot ==> s[i - 1] != Dot
  {
    PrefixOkAt(s, |s|, 0);
    forall i | 0 < i < |s| && s[i] == Dot
      ensures s[i - 1] != Dot
    {
      PrefixOkAt(s, |s|, i);
    }
  }

  /** ffsockaddr_fromstr: an IPv4 address optionally followed by ":port".
      The port defaults to default_port narrowed to 16 bits; text after
      the address that does not start with ':' is ignored. Returns the
      address and port, or None for the C routine's -1. */
  function SockaddrFromStr(s: seq<byte>, defaultPort: u32): (r: Option<(seq<byte>, u16)>)
    ensures r.Some? ==> |r.value.0| == 4
    ensures |s| == 0 || IpText.ParseIp4(s).Ip4Bad? ==> r.None?
    ensures r.Some? ==> IpText.ParseIp4(s).Ip4Ok? && r.value.0 == IpText.ParseIp4(s).addr
  {
    if |s| == 0 then None
    else
      var used := IpText.Ip4ParseResult(s);
      if used < 0 then None
      else
        var addr := IpText.ParseIp4(s).addr;
        if used > 0 && s[used] == IpText.Colon then
          match IpText.ParseU16(s[used + 1..])
          case None => None
          case Some(port) => Some((addr, port))
        else Some((addr, defaultPort % 0x1_0000))
  }

  /** Address text alone yields the default port; address text followed
      by ":" and a 16-bit decimal number yields that port. */
  lemma SockaddrRoundTrip(ip: seq<byte>, addr: seq<byte>, port: seq<byte>, v: u16, defaultPort: u32)
    requires IpText.ParseIp4(ip) == IpText.Ip4Ok(|ip|, addr)
    requires IpText.ParseU16(port) == Some(v)
    ensures SockaddrFromStr(ip, defaultPort) == Some((addr, defaultPort % 0x1_0000))
    ensures SockaddrFromStr(ip + [IpText.Colon] + port, defaultPort) == Some((addr, v))
  {
    var s := ip + [IpText.Colon] + port;
    assert s == ip + ([IpText.Colon] + port);
    IpText.ParseIp4Extend(ip, [IpText.Colon] + port);
    assert s[|ip| + 1..] == port;
  }

  /** The three refusals: empty text, text that is not an IPv4 address,
      and an address whose ':' is not followed by a 16-bit decimal. */
  lemma SockaddrRefuses(ip: seq<byte>, addr: seq<byte>, port: seq<byte>, s: seq<byte>, defaultPort: u32)
    requires IpText.ParseIp4(ip) == IpText.Ip4Ok(|ip|, addr)
    ensures SockaddrFromStr([], defaultPort) == None
    ensures IpText.ParseU16(port).None? ==> SockaddrFromStr(ip + [IpText.Colon] + port, defaultPort) == None
    ensures IpText.ParseIp4(s).Ip4Bad? ==> SockaddrFromStr(s, defaultPort) == None
  {
    var t := ip + [IpText.Colon] + port;
    assert t == ip + ([IpText.Colon] + port);
    IpText.ParseIp4Extend(ip, [IpText.Colon] + port);
    assert t[|ip| + 1..] == port;
  }

}
