/** What the DNS client takes from a response datagram, and the walks it
    makes over the answer records.

    Reading and writing the wire format (message header, question and
    resource records of section 4.1 of RFC 1035, with the OPT record of
    section 6.1.1 of RFC 6891) is done by the message codec, which is not
    part of this model; a datagram is given here as what the codec reads
    from it: the header and question if they decode, and the answer
    records that decode, in order, reading the one after them failing. */
module DnsMsg {
  import opened Bytes

  /** Record types and class (section 3.2 of RFC 1035; AAAA: section 2.1 of RFC 3596). */
  const TypeA: nat := 1
  const TypeCname: nat := 5
  const TypeAaaa: nat := 28
  const ClassIn: nat := 1
  /** The NOERROR response code. */
  const NoError: nat := 0

  datatype Header = Header(id: u16, response: bool, questions: nat, rcode: nat, answers: nat)
  datatype Question = Question(name: seq<byte>, qclass: nat, qtype: nat)
  datatype Answer = Answer(name: seq<byte>, atype: nat, aclass: nat, ttl: u32, data: seq<byte>)
  datatype Msg = Msg(header: Option<Header>, question: Option<Question>, answers: seq<Answer>)

  /** A record the client keeps for the family it asked for: class IN, of
      type A with 4 bytes of data or of type AAAA with 16. */
  predicate Kept(a: Answer, is4: bool)
  {
    a.aclass == ClassIn
    && if is4 then a.atype == TypeA && |a.data| == 4 else a.atype == TypeAaaa && |a.data| == 16
  }

  /** The records kept, in order. */
  function KeptOf(rs: seq<Answer>, is4: bool): (k: seq<Answer>)
    decreases |rs|
    ensures |k| <= |rs|
    ensures forall i :: 0 <= i < |k| ==> Kept(k[i], is4)
  {
    if rs == [] then []
    else KeptOf(rs[..|rs| - 1], is4) + (if Kept(rs[|rs| - 1], is4) then [rs[|rs| - 1]] else [])
  }

  /** The data of the records, in order. */
  function DataOf(rs: seq<Answer>): (d: seq<seq<byte>>)
    decreases |rs|
    ensures |d| == |rs| && forall i :: 0 <= i < |rs| ==> d[i] == rs[i].data
  {
    if rs == [] then [] else DataOf(rs[..|rs| - 1]) + [rs[|rs| - 1].data]
  }

  /** The least TTL of the records, starting from 0xffffffff. */
  function MinTtl(rs: seq<Answer>): (t: u32)
    decreases |rs|
    ensures forall i :: 0 <= i < |rs| ==> t <= rs[i].ttl
    ensures rs == [] ==> t == 0xffff_ffff
    ensures rs != [] ==> exists i :: 0 <= i < |rs| && t == rs[i].ttl
  {
    if rs == [] then 0xffff_ffff
    else
      var m := MinTtl(rs[..|rs| - 1]);
      var last := rs[|rs| - 1];
      assert forall i :: 0 <= i < |rs| - 1 ==> rs[..|rs| - 1][i] == rs[i];
      if last.ttl < m then last.ttl else m
  }

  /** The records a walk can read: no more than the header's count and
      only those that decode. */
  function Readable(ans: seq<Answer>, count: nat): seq<Answer>
  {
    ans[..Min(count, |ans|)]
  }

  /** The position of the first record with an empty name. */
  function FirstEmpty(rs: seq<Answer>): (n: nat)
    decreases |rs|
    ensures n <= |rs|
  {
    if rs == [] then 0 else if |rs[0].name| == 0 then 0 else 1 + FirstEmpty(rs[1..])
  }

  /** FirstEmpty is the first such position. */
  lemma {:induction false} FirstEmptyAt(rs: seq<Answer>, i: nat)
    requires i <= |rs| && (i == |rs| || |rs[i].name| == 0)
    requires forall j :: 0 <= j < i ==> |rs[j].name| != 0
    decreases i
    ensures FirstEmpty(rs) == i
  {
    if i > 0 {
      assert |rs[0].name| != 0;
      FirstEmptyAt(rs[1..], i - 1);
    }
  }

  /** The records ans_nrecs walks: the readable ones before the first
      record with an empty name. */
  function Records(ans: seq<Answer>, count: nat): seq<Answer>
  {
    var rs := Readable(ans, count);
    rs[..FirstEmpty(rs)]
  }

  /** One more record at the end of the walk. */
  lemma KeptOfStep(ans: seq<Answer>, i: nat, is4: bool)
    requires i < |ans|
    ensures KeptOf(ans[..i + 1], is4) == KeptOf(ans[..i], is4) + (if Kept(ans[i], is4) then [ans[i]] else [])
    ensures DataOf(ans[..i + 1]) == DataOf(ans[..i]) + [ans[i].data]
  {
    assert ans[..i + 1][..i] == ans[..i];
  }

  /** ans_nrecs: the number of records kept for the family. */
  method CountRecords(ans: seq<Answer>, count: nat, is4: bool) returns (nrecs: nat)
    ensures nrecs == |KeptOf(Records(ans, count), is4)|
  {
    nrecs := 0;
    var ir := 0;
    while ir < count
      invariant ir <= Min(count, |ans|)
      invariant forall j :: 0 <= j < ir ==> |ans[j].name| != 0
      invariant nrecs == |KeptOf(ans[..ir], is4)|
      decreases count - ir
    {
      if ir >= |ans| {
        break;
      }
      var a := ans[ir];
      if |a.name| == 0 {
        break;
      }
      KeptOfStep(ans, ir, is4);
      if a.atype == TypeA {
        if a.aclass == ClassIn && |a.data| == 4 && is4 {
          nrecs := nrecs + 1;
        }
      } else if a.atype == TypeAaaa {
        if a.aclass == ClassIn && |a.data| == 16 && !is4 {
          nrecs := nrecs + 1;
        }
      }
      ir := ir + 1;
    }
    WalkEnds(ans, count, ir);
  }

  /** Where the walk stops is where Records ends. */
  lemma WalkEnds(ans: seq<Answer>, count: nat, ir: nat)
    requires ir <= Min(count, |ans|)
    requires forall j :: 0 <= j < ir ==> |ans[j].name| != 0
    requires ir == count || ir == |ans| || |ans[ir].name| == 0
    ensures Records(ans, count) == ans[..ir]
  {
    var rs := Readable(ans, count);
    FirstEmptyAt(rs, ir);
    assert rs[..ir] == ans[..ir];
  }

  /** The copy pass of ans_proc_resp with the stop at an empty name that
      the counting pass makes: the addresses of the records kept and
      their least TTL. */
  method CopyRecords(ans: seq<Answer>, count: nat, is4: bool) returns (addrs: seq<seq<byte>>, minTtl: u32)
    ensures addrs == DataOf(KeptOf(Records(ans, count), is4))
    ensures minTtl == MinTtl(KeptOf(Records(ans, count), is4))
  {
    addrs, minTtl := [], 0xffff_ffff;
    var ir := 0;
    ghost var kept: seq<Answer> := [];
    while ir < count
      invariant ir <= Min(count, |ans|)
      invariant forall j :: 0 <= j < ir ==> |ans[j].name| != 0
      invariant kept == KeptOf(ans[..ir], is4)
      invariant addrs == DataOf(kept) && minTtl == MinTtl(kept)
      decreases count - ir
    {
      if ir >= |ans| {
        break;
      }
      var a := ans[ir];
      if |a.name| == 0 {
        break;
      }
      KeptOfStep(ans, ir, is4);
      ir := ir + 1;
      if a.aclass != ClassIn {
        continue;
      }
      if a.atype == TypeA {
        if !is4 || |a.data| != 4 {
          continue;
        }
      } else if a.atype == TypeAaaa {
        if is4 || |a.data| != 16 {
          continue;
        }
      } else {
        continue;
      }
      AppendKept(kept, a);
      kept := kept + [a];
      addrs := addrs + [a.data];
      minTtl := if a.ttl < minTtl then a.ttl else minTtl;
    }
    WalkEnds(ans, count, ir);
  }

  lemma AppendKept(kept: seq<Answer>, a: Answer)
    ensures DataOf(kept + [a]) == DataOf(kept) + [a.data]
    ensures MinTtl(kept + [a]) == if a.ttl < MinTtl(kept) then a.ttl else MinTtl(kept)
  {
    assert (kept + [a])[..|kept|] == kept;
  }

  /** The copy pass as written walks every readable record: it has no stop
      at an empty name. */
  function CopiedAsWritten(ans: seq<Answer>, count: nat, is4: bool): seq<Answer>
  {
    KeptOf(Readable(ans, count), is4)
  }

  /** A response whose second A record has an empty name: the counting
      pass stops before it and keeps one record, so room for one address
      is made, while the copy pass as written copies two. */
  lemma CopyOverrunAsWritten(a: Answer)
    requires Kept(a, true) && |a.name| > 0
    ensures var ans := [a, a.(name := [])];
            |KeptOf(Records(ans, 2), true)| == 1 && |CopiedAsWritten(ans, 2, true)| == 2
  {
    var ans := [a, a.(name := [])];
    assert Readable(ans, 2) == ans by {
      assert ans[..2] == ans;
    }
    FirstEmptyAt(ans, 1);
    assert ans[..1] == [a];
    assert Records(ans, 2) == [a];
    assert KeptOf([a], true) == [a];
    assert ans[..|ans| - 1] == [a];
    assert KeptOf(ans, true) == [a, a.(name := [])];
  }

  /** The records counted are the records copied: the corrected copy can
      never write past the room made for it. */
  lemma CountMatchesCopy(ans: seq<Answer>, count: nat, is4: bool)
    ensures |DataOf(KeptOf(Records(ans, count), is4))| == |KeptOf(Records(ans, count), is4)|
    ensures forall i :: 0 <= i < |KeptOf(Records(ans, count), is4)| ==>
              |DataOf(KeptOf(Records(ans, count), is4))[i]| == (if is4 then 4 else 16)
  {
  }

  /** The IPv4-mapped IPv6 address ::ffff:a.b.c.d (section 2.5.5.2 of RFC 4291). */
  function Mapped(a4: seq<byte>): (a: seq<byte>)
    ensures |a| == 12 + |a4| && a[12..] == a4
    ensures forall i :: 0 <= i < 10 ==> a[i] == 0
    ensures a[10] == 0xff && a[11] == 0xff
  {
    [0, 0, 0, 0, 0, 0, 0, 0, 0, 0, 0xff, 0xff] + a4
  }

  /** ASCII lower case, as the case-insensitive hash folds its input. */
  function Lower(s: seq<byte>): (r: seq<byte>)
    ensures |r| == |s|
    ensures forall i :: 0 <= i < |s| ==> r[i] == if 0x41 <= s[i] <= 0x5a then s[i] + 0x20 else s[i]
  {
    if s == [] then [] else [if 0x41 <= s[0] <= 0x5a then s[0] + 0x20 else s[0]] + Lower(s[1..])
  }

  // ---------------------------------------------------------------- ffip_split

  const Colon: byte := 0x3a
  const LBracket: byte := 0x5b
  const RBracket: byte := 0x5d

  /** The position of the last ':' of s, or -1. */
  function LastColon(s: seq<byte>): (p: int)
    decreases |s|
    ensures -1 <= p < |s|
    ensures p >= 0 ==> s[p] == Colon && forall i :: p < i < |s| ==> s[i] != Colon
    ensures p < 0 ==> forall i :: 0 <= i < |s| ==> s[i] != Colon
  {
    if s == [] then -1
    else if s[|s| - 1] == Colon then |s| - 1
    else LastColon(s[..|s| - 1])
  }

  /** The text split by its last ':' into address, port, and whether
      there was a ':' at all. */
  function SplitLast(s: seq<byte>): (seq<byte>, seq<byte>, bool)
  {
    var p := LastColon(s);
    if p < 0 then (s, [], false) else (s[..p], s[p + 1..], true)
  }

  /** ffip_split: "IP[:PORT]", with an IPv6 address in brackets; the
      brackets are dropped from the address. None for the C routine's -1. */
  function IpSplit(s: seq<byte>): Option<(seq<byte>, seq<byte>)>
  {
    var (ip, port, sep) := SplitLast(s);
    if |ip| != 0 && ip[0] == LBracket then
      if s[|s| - 1] == RBracket then Bracketed(s, [], false)
      else Bracketed(ip, port, sep)
    else if sep && |port| == 0 then None
    else Some((ip, port))
  }

  /** The bracketed branch of ffip_split: at least "[x]" and a closing
      bracket, and a port after any ':'. */
  function Bracketed(ip: seq<byte>, port: seq<byte>, sep: bool): Option<(seq<byte>, seq<byte>)>
  {
    if !(|ip| >= 4 && ip[|ip| - 1] == RBracket) then None
    else if sep && |port| == 0 then None
    else Some((ip[1..|ip| - 1], port))
  }

  /** Text without ':' after x leaves x's last ':' the last. */
  lemma {:induction false} LastColonAppend(x: seq<byte>, t: seq<byte>)
    requires forall i :: 0 <= i < |t| ==> t[i] != Colon
    decreases |t|
    ensures LastColon(x + t) == LastColon(x)
  {
    if t != [] {
      var t' := t[..|t| - 1];
      assert (x + t)[..|x + t| - 1] == x + t';
      assert (x + t)[|x + t| - 1] == t[|t| - 1];
      LastColonAppend(x, t');
    } else {
      assert x + t == x;
    }
  }

  /** Text without ':' is the address alone. */
  lemma SplitAddressOnly(ip: seq<byte>)
    requires forall i :: 0 <= i < |ip| ==> ip[i] != Colon
    requires ip == [] || ip[0] != LBracket
    ensures IpSplit(ip) == Some((ip, []))
  {
  }

  /** "ip:port" splits at the colon. */
  lemma SplitAddressPort(ip: seq<byte>, port: seq<byte>)
    requires forall i :: 0 <= i < |port| ==> port[i] != Colon
    requires port != [] && (ip == [] || ip[0] != LBracket)
    ensures IpSplit(ip + [Colon] + port) == Some((ip, port))
  {
    var s := ip + [Colon] + port;
    LastColonAppend(ip + [Colon], port);
    assert LastColon(s) == |ip|;
    assert s[..|ip|] == ip && s[|ip| + 1..] == port;
    assert SplitLast(s) == (ip, port, true);
  }

  /** "ip:" is refused. */
  lemma SplitEmptyPort(ip: seq<byte>)
    requires ip == [] || ip[0] != LBracket
    ensures IpSplit(ip + [Colon]) == None
  {
    var s := ip + [Colon];
    assert LastColon(s) == |ip|;
    assert s[..|ip|] == ip;
  }

  /** "[v6]:port" gives the address without brackets and the port. */
  lemma SplitBracketPort(v6: seq<byte>, port: seq<byte>)
    requires |v6| >= 2
    requires forall i :: 0 <= i < |port| ==> port[i] != Colon
    requires port != [] && port[|port| - 1] != RBracket
    ensures IpSplit([LBracket] + v6 + [RBracket, Colon] + port) == Some((v6, port))
  {
    var s := [LBracket] + v6 + [RBracket, Colon] + port;
    var p := |v6| + 2;
    assert s[p] == Colon && forall i :: p < i < |s| ==> s[i] == port[i - p - 1];
    assert LastColon(s) == p;
    var ip := s[..p];
    assert ip == [LBracket] + v6 + [RBracket];
    assert ip[1..|ip| - 1] == v6;
    assert s[p + 1..] == port;
  }

  /** "[v6]" alone gives the address without brackets and no port. */
  lemma SplitBracketOnly(v6: seq<byte>)
    requires |v6| >= 2
    ensures IpSplit([LBracket] + v6 + [RBracket]) == Some((v6, []))
  {
    var s := [LBracket] + v6 + [RBracket];
    assert s[1..|s| - 1] == v6;
    var p := LastColon(s);
    if p >= 0 {
      assert s[..p][0] == LBracket;
    } else {
      assert s[0] == LBracket;
    }
  }
}
