/** Text forms of IPv4 addresses and port numbers, as the socket-address
    and DNS-server parsers consume them. The IPv4 text parser and the
    16-bit integer parser are library routines outside this model; they
    are given definitions here that agree with the results net/test-ipaddr.c
    checks: a full parse, a parse followed by other text, or an error. */
module IpText {
  import opened Bytes

  predicate IsDigit(c: byte)
  {
    0x30 <= c <= 0x39
  }

  const Dot: byte := 0x2e
  const Colon: byte := 0x3a

  /** Length of the run of decimal digits of s starting at p. */
  function DigitRun(s: seq<byte>, p: nat): (n: nat)
    requires p <= |s|
    ensures p + n <= |s|
    decreases |s| - p
  {
    if p < |s| && IsDigit(s[p]) then 1 + DigitRun(s, p + 1) else 0
  }

  /** The run is maximal and made of digits only. */
  lemma {:induction false} DigitRunDigits(s: seq<byte>, p: nat)
    requires p <= |s|
    ensures forall k :: p <= k < p + DigitRun(s, p) ==> IsDigit(s[k])
    ensures p + DigitRun(s, p) < |s| ==> !IsDigit(s[p + DigitRun(s, p)])
    decreases |s| - p
  {
    if p < |s| && IsDigit(s[p]) {
      DigitRunDigits(s, p + 1);
    }
  }

  function DigitValue(c: byte): nat
  {
    if IsDigit(c) then c - 0x30 else 0
  }

  /** Value of the digits s[p..p + n]. */
  function DecValue(s: seq<byte>, p: nat, n: nat): nat
    requires p + n <= |s|
    decreases n
  {
    if n == 0 then 0 else DecValue(s, p, n - 1) * 10 + DigitValue(s[p + n - 1])
  }

  /** One dotted-quad component at p: one to three digits, at most 255.
      Returns the component and the position after it. */
  function Octet(s: seq<byte>, p: nat): (r: Option<(byte, nat)>)
    requires p <= |s|
    ensures r.Some? ==> p < r.value.1 <= |s|
  {
    var n := DigitRun(s, p);
    if 1 <= n <= 3 && DecValue(s, p, n) <= 255 then Some((DecValue(s, p, n), p + n))
    else None
  }

  /** Outcome of the IPv4 text parser: an error, or the four address bytes
      and how many bytes of text they took. */
  datatype Ip4Parse = Ip4Bad | Ip4Ok(used: nat, addr: seq<byte>)

  function Ip4At(s: seq<byte>, p: nat, k: nat, acc: seq<byte>): (r: Ip4Parse)
    requires p <= |s| && k < 4 && |acc| == k
    ensures r.Ip4Ok? ==> p < r.used <= |s| && |r.addr| == 4
    decreases 4 - k
  {
    match Octet(s, p)
    case None => Ip4Bad
    case Some((v, q)) =>
      if k == 3 then Ip4Ok(q, acc + [v])
      else if q < |s| && s[q] == Dot then Ip4At(s, q + 1, k + 1, acc + [v])
      else Ip4Bad
  }

  /** ffip4_parse on all of s. */
  function ParseIp4(s: seq<byte>): (r: Ip4Parse)
    ensures r.Ip4Ok? ==> 0 < r.used <= |s| && |r.addr| == 4
  {
    Ip4At(s, 0, 0, [])
  }

  /** The integer the C routine returns: 0 when the whole text is the
      address, the number of bytes used when other text follows, and a
      negative value on error. */
  function Ip4ParseResult(s: seq<byte>): (r: int)
    ensures r > 0 ==> ParseIp4(s).Ip4Ok? && r == ParseIp4(s).used < |s|
    ensures r == 0 <==> ParseIp4(s).Ip4Ok? && ParseIp4(s).used == |s|
    ensures r < 0 <==> ParseIp4(s).Ip4Bad?
  {
    match ParseIp4(s)
    case Ip4Bad => -1
    case Ip4Ok(used, _) => if used == |s| then 0 else used
  }

  lemma {:induction false} DigitRunExtend(a: seq<byte>, b: seq<byte>, p: nat)
    requires p <= |a| && (b == [] || !IsDigit(b[0]))
    ensures DigitRun(a + b, p) == DigitRun(a, p)
    decreases |a| - p
  {
    if p < |a| {
      assert (a + b)[p] == a[p];
      DigitRunExtend(a, b, p + 1);
    } else if b != [] {
      assert (a + b)[p] == b[0];
    }
  }

  lemma {:induction false} DecValueExtend(a: seq<byte>, b: seq<byte>, p: nat, n: nat)
    requires p + n <= |a|
    ensures DecValue(a + b, p, n) == DecValue(a, p, n)
    decreases n
  {
    if n > 0 {
      assert (a + b)[p + n - 1] == a[p + n - 1];
      DecValueExtend(a, b, p, n - 1);
    }
  }

  /** A component is unchanged by text that cannot continue it. */
  lemma OctetExtend(a: seq<byte>, b: seq<byte>, p: nat)
    requires p <= |a| && (b == [] || !IsDigit(b[0]))
    ensures Octet(a + b, p) == Octet(a, p)
  {
    DigitRunExtend(a, b, p);
    DecValueExtend(a, b, p, DigitRun(a, p));
  }

  /** One component and its dot, in terms of the component parser. */
  lemma Ip4AtStep(s: seq<byte>, p: nat, k: nat, acc: seq<byte>)
    requires p <= |s| && k < 3 && |acc| == k && Octet(s, p).Some?
    requires Octet(s, p).value.1 < |s| && s[Octet(s, p).value.1] == Dot
    ensures Ip4At(s, p, k, acc) == Ip4At(s, Octet(s, p).value.1 + 1, k + 1, acc + [Octet(s, p).value.0])
  {
  }

  lemma {:induction false} Ip4AtExtend(a: seq<byte>, b: seq<byte>, p: nat, k: nat, acc: seq<byte>)
    requires p <= |a| && k < 4 && |acc| == k && (b == [] || !IsDigit(b[0]))
    requires Ip4At(a, p, k, acc).Ip4Ok?
    ensures Ip4At(a + b, p, k, acc) == Ip4At(a, p, k, acc)
    decreases 4 - k
  {
    OctetExtend(a, b, p);
    var o := Octet(a, p).value;
    if k < 3 {
      assert o.1 < |a| && a[o.1] == Dot;
      assert (a + b)[o.1] == a[o.1];
      Ip4AtStep(a, p, k, acc);
      Ip4AtStep(a + b, p, k, acc);
      Ip4AtExtend(a, b, o.1 + 1, k + 1, acc + [o.0]);
    }
  }

  /** Text after a complete address that does not start with a digit
      leaves the address and its length unchanged: the parser stops at
      the first byte that cannot continue the last component. */
  lemma ParseIp4Extend(a: seq<byte>, b: seq<byte>)
    requires ParseIp4(a).Ip4Ok? && (b == [] || !IsDigit(b[0]))
    ensures ParseIp4(a + b) == ParseIp4(a)
  {
    Ip4AtExtend(a, b, 0, 0, []);
  }

  /** ffstr_toint with the 16-bit unsigned flavour: the whole text must be
      decimal digits whose value fits 16 bits. */
  function ParseU16(s: seq<byte>): (r: Option<u16>)
    ensures r.Some? ==> |s| > 0 && DigitRun(s, 0) == |s|
  {
    if |s| > 0 && DigitRun(s, 0) == |s| && DecValue(s, 0, |s|) < 0x1_0000 then Some(DecValue(s, 0, |s|))
    else None
  }

  /** A run of n digits ended by the end of the text or a non-digit. */
  lemma {:induction false} DigitRunSpan(s: seq<byte>, p: nat, n: nat)
    requires p + n <= |s| && (forall i | p <= i < p + n :: IsDigit(s[i]))
    requires p + n == |s| || !IsDigit(s[p + n])
    ensures DigitRun(s, p) == n
    decreases n
  {
    if n > 0 {
      DigitRunSpan(s, p + 1, n - 1);
    }
  }

  /** A component of n digits worth v, followed by a dot, moves the
      parser to the next component. */
  lemma Ip4AtNext(s: seq<byte>, p: nat, k: nat, acc: seq<byte>, n: nat, v: byte)
    requires k < 3 && |acc| == k && 1 <= n <= 3 && p + n < |s|
    requires (forall i | p <= i < p + n :: IsDigit(s[i])) && s[p + n] == Dot
    requires DecValue(s, p, n) == v
    ensures Ip4At(s, p, k, acc) == Ip4At(s, p + n + 1, k + 1, acc + [v])
  {
    DigitRunSpan(s, p, n);
  }

  /** A fourth component of n digits worth v ends the address. */
  lemma Ip4AtLast(s: seq<byte>, p: nat, acc: seq<byte>, n: nat, v: byte)
    requires |acc| == 3 && 1 <= n <= 3 && p + n <= |s|
    requires (forall i | p <= i < p + n :: IsDigit(s[i]))
    requires p + n == |s| || !IsDigit(s[p + n])
    requires DecValue(s, p, n) == v
    ensures Ip4At(s, p, 3, acc) == Ip4Ok(p + n, acc + [v])
  {
    DigitRunSpan(s, p, n);
  }

  /** A first component of n digits worth v, followed by a dot. */
  lemma ParseIp4First(s: seq<byte>, n: nat, v: byte)
    requires 1 <= n <= 3 && n < |s|
    requires (forall i | 0 <= i < n :: IsDigit(s[i])) && s[n] == Dot
    requires DecValue(s, 0, n) == v
    ensures ParseIp4(s) == Ip4At(s, n + 1, 1, [v])
  {
    Ip4AtNext(s, 0, 0, [], n, v);
    assert [] + [v] == [v];
  }

  lemma FourBytes(a: byte, b: byte, c: byte, d: byte)
    ensures [a] + [b] + [c] + [d] == [a, b, c, d]
  {
  }

  /** Text starting "1.65." reaches its third component with 1 and 65 read. */
  lemma Ip4Prefix2(s: seq<byte>)
    requires |s| > 5 && s[0] == 0x31 && s[1] == Dot && s[2] == 0x36 && s[3] == 0x35 && s[4] == Dot
    ensures ParseIp4(s) == Ip4At(s, 5, 2, [1] + [65])
  {
    ParseIp4First(s, 1, 1);
    Ip4AtNext(s, 2, 1, [1], 2, 65);
  }

  /** Text starting "1.65.192." reaches its last component with 1, 65 and
      192 read. */
  lemma Ip4Prefix3(s: seq<byte>)
    requires |s| > 9 && s[0] == 0x31 && s[1] == Dot && s[2] == 0x36 && s[3] == 0x35 && s[4] == Dot
    requires s[5] == 0x31 && s[6] == 0x39 && s[7] == 0x32 && s[8] == Dot
    ensures ParseIp4(s) == Ip4At(s, 9, 3, [1] + [65] + [192])
  {
    Ip4Prefix2(s);
    Ip4AtNext(s, 5, 2, [1] + [65], 3, 192);
  }

  // The parser agrees with the library's own examples.

  /** "1.65.192.255" parses completely to 1.65.192.255. */
  lemma Ip4ExampleFull(s: seq<byte>)
    requires s == [0x31, 0x2e, 0x36, 0x35, 0x2e, 0x31, 0x39, 0x32, 0x2e, 0x32, 0x35, 0x35]
    ensures Ip4ParseResult(s) == 0 && ParseIp4(s).addr == [1, 65, 192, 255]
  {
    Ip4Prefix3(s);
    Ip4AtLast(s, 9, [1] + [65] + [192], 3, 255);
    FourBytes(1, 65, 192, 255);
  }

  /** "1.65.192.2/" parses to 1.65.192.2 followed by other text. */
  lemma Ip4ExampleTrailing(s: seq<byte>)
    requires s == [0x31, 0x2e, 0x36, 0x35, 0x2e, 0x31, 0x39, 0x32, 0x2e, 0x32, 0x2f]
    ensures Ip4ParseResult(s) == 10
  {
    Ip4Prefix3(s);
    Ip4AtLast(s, 9, [1] + [65] + [192], 1, 2);
  }

  /** "1.65.192.256" is refused: the last component exceeds 255. */
  lemma Ip4ExampleOutOfRange(s: seq<byte>)
    requires s == [0x31, 0x2e, 0x36, 0x35, 0x2e, 0x31, 0x39, 0x32, 0x2e, 0x32, 0x35, 0x36]
    ensures Ip4ParseResult(s) < 0
  {
    Ip4Prefix3(s);
    DigitRunSpan(s, 9, 3);
  }

  /** "1.65..192" is refused: the third component is empty. */
  lemma Ip4ExampleEmptyOctet(s: seq<byte>)
    requires s == [0x31, 0x2e, 0x36, 0x35, 0x2e, 0x2e, 0x31, 0x39, 0x32]
    ensures Ip4ParseResult(s) < 0
  {
    Ip4Prefix2(s);
    DigitRunSpan(s, 5, 0);
  }
}
