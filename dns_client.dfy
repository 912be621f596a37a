/** The asynchronous DNS resolver engine (net/dns-client.c): a table of
    pending queries keyed by the hash of the host name, a list of servers
    used round-robin, and the events that drive it (resolve, cancel, timer
    expiry, response, server add, teardown).

    The model works on the engine's state, not its sockets. The message
    codec, the two CRC-32 hashes, the random transaction IDs, the timer and
    the socket calls are inputs: `Env` carries the hashes and the query
    encoder, the IDs are parameters, and the outcome of the socket calls of
    the k-th send attempt of an event is `net(k)`. A callback into the
    caller is an output: the `Note`s to the waiters (ondone) and the
    `CacheNote`s (oncomplete) an event produces, in call order. */
module DnsClient {
  import opened Bytes
  import opened DnsMsg
  import IpText

  type Name = seq<byte>

  /** FFDNSCL_CANCEL, the flag that makes a resolve call a cancel. */
  const CancelFlag: nat := 1
  /** The default DNS server port. */
  const DnsPort: u16 := 53

  /** A waiter: the callback and the opaque pointer handed back to it. */
  datatype User = User(ondone: nat, udata: nat)
  /** A stored result for one family: 4-byte or 16-byte addresses. */
  datatype Res = Res(is4: bool, addrs: seq<seq<byte>>)
  /** A pending query; `res` and `ttl` hold the nres stored results and
      their least TTLs, `ques4`/`ques6` the encoded queries. */
  datatype Query = Query(name: Name, triesLeft: nat, res: seq<Res>, ttl: seq<u32>, status: int,
                         users: seq<User>, txid4: u16, txid6: u16, need4: bool, need6: bool,
                         ques4: seq<byte>, ques6: seq<byte>)
  /** A server: its IPv4 address and port, its address text, whether its
      socket is connected, and the number of queries sent to it. */
  datatype Serv = Serv(addr: seq<byte>, port: u16, saddr: seq<byte>, connected: bool, nqueries: nat)
  /** What a waiter receives: status is an RCODE or -1 for an internal
      failure; ips are 16-byte addresses, IPv4 ones first. */
  datatype Result = Result(name: Name, status: int, ips: seq<seq<byte>>, server: seq<byte>)
  datatype Note = Note(user: User, result: Result)
  datatype CacheNote = CacheNote(res: Res, name: Name, refcount: nat, ttl: u32)
  /** The outcome of the socket calls of one send attempt: socket set-up,
      connect, and the AAAA and A sends. */
  datatype Link = Link(init: bool, connect: bool, send6: bool, send4: bool)
  /** The configuration and the foreign functions: the case-insensitive
      hash of resolve and cancel, the case-sensitive hash of the response
      path, and the query encoder (transaction ID, name, record type),
      which gives no bytes when the name cannot be encoded. */
  datatype Env = Env(maxTries: nat, enableIpv6: bool, icrc: Name -> u32, crc: Name -> u32,
                     prep: (u16, Name, nat) -> seq<byte>)
  datatype RState = RState(queries: map<u32, Query>, servs: seq<Serv>, cur: nat)
  /** An event's outcome: new state, return code, callbacks, and the number
      of send attempts made. */
  datatype Out = Out(st: RState, rc: int, notes: seq<Note>, cache: seq<CacheNote>, sent: nat)

  function Failed(name: Name): Result
  {
    Result(name, -1, [], [])
  }

  predicate ResValid(r: Res)
  {
    |r.addrs| > 0 && forall j :: 0 <= j < |r.addrs| ==> |r.addrs[j]| == if r.is4 then 4 else 16
  }

  /** At most one result per family. */
  predicate Distinct(res: seq<Res>)
  {
    |res| <= 2 && (|res| == 2 ==> res[0].is4 != res[1].is4)
  }

  /** A pending query still waits for some family; a family has a result
      only once its flag is cleared, so there is at most one per family. */
  predicate QValid(q: Query, maxTries: nat)
  {
    (q.need4 || q.need6) && |q.res| == |q.ttl| && Distinct(q.res)
    && (forall i :: 0 <= i < |q.res| ==> if q.res[i].is4 then !q.need4 else !q.need6)
    && (forall i :: 0 <= i < |q.res| ==> ResValid(q.res[i]))
    && q.triesLeft <= maxTries
  }

  /** The resolver's invariant: a valid cursor, every query stored under
      the case-insensitive hash of its name, and a server to send to while
      a query has tries left. */
  predicate Consistent(st: RState, env: Env)
  {
    (if |st.servs| == 0 then st.cur == 0 else st.cur < |st.servs|)
    && forall k :: k in st.queries ==>
         k == env.icrc(st.queries[k].name) && QValid(st.queries[k], env.maxTries)
         && (st.queries[k].triesLeft > 0 ==> |st.servs| > 0)
  }

  // ---------------------------------------------------------------- servers

  /** serv_next: the current server, and the cursor moved to its successor
      or back to the first. */
  function ServNext(servs: seq<Serv>, cur: nat): (r: (nat, nat))
    requires cur < |servs|
    ensures r.0 == cur && r.1 < |servs|
  {
    (cur, if cur + 1 < |servs| then cur + 1 else 0)
  }

  /** The servers picked by k successive calls from cursor cur. */
  function Picks(servs: seq<Serv>, cur: nat, k: nat): seq<nat>
    requires cur < |servs|
    decreases k
  {
    if k == 0 then []
    else var (i, c) := ServNext(servs, cur); [i] + Picks(servs, c, k - 1)
  }

  /** Position x of the server list read cyclically, for x below twice its length. */
  function Wrap(x: nat, n: nat): nat
  {
    if x < n then x else x - n
  }

  /** Round-robin: within one cycle the j-th pick is j servers after the
      cursor, wrapping past the last server to the first. */
  lemma {:induction false} RoundRobin(servs: seq<Serv>, cur: nat, k: nat)
    requires cur < |servs| && k <= |servs|
    ensures |Picks(servs, cur, k)| == k
    ensures forall j :: 0 <= j < k ==> Picks(servs, cur, k)[j] == Wrap(cur + j, |servs|)
    decreases k
  {
    if k > 0 {
      var c := ServNext(servs, cur).1;
      RoundRobin(servs, c, k - 1);
      assert Picks(servs, cur, k) == [cur] + Picks(servs, c, k - 1);
    }
  }

  /** Any |servs| successive picks use every server exactly once. */
  lemma FairCycle(servs: seq<Serv>, cur: nat)
    requires cur < |servs|
    ensures var p := Picks(servs, cur, |servs|);
      |p| == |servs|
      && (forall s :: 0 <= s < |servs| ==> s in p)
      && (forall i, j :: 0 <= i < j < |p| ==> p[i] != p[j])
  {
    var n := |servs|;
    RoundRobin(servs, cur, n);
    var p := Picks(servs, cur, n);
    forall s | 0 <= s < n
      ensures s in p
    {
      var j := if s >= cur then s - cur else s + n - cur;
      assert p[j] == s;
    }
  }

  /** ffdnscl_serv_add: "IP[:PORT]" with an IPv4 address, port 53 by
      default; the server is appended and the cursor goes back to the
      first server. -1 on a malformed address or port. */
  function AddServer(st: RState, saddr: seq<byte>): Out
  {
    match IpSplit(saddr)
    case None => Out(st, -1, [], [], 0)
    case Some((ip, sport)) =>
      var port := if |sport| == 0 then Some(DnsPort) else IpText.ParseU16(sport);
      if port.None? || IpText.Ip4ParseResult(ip) != 0 then Out(st, -1, [], [], 0)
      else
        var s := Serv(IpText.ParseIp4(ip).addr, port.value, saddr, false, 0);
        Out(st.(servs := st.servs + [s], cur := 0), 0, [], [], 0)
  }

  // -------------------------------------------------------------- sending

  datatype Sent = Sent(ok: bool, serv: Serv)

  /** query_send1: set up and connect the socket if needed, then send the
      AAAA and the A query for the families still needed. A failed send
      closes the socket; success arms the retry timer. */
  function Send1(q: Query, s: Serv, link: Link): (r: Sent)
  {
    if !s.connected && !(link.init && link.connect) then Sent(false, s)
    else
      var s1 := s.(connected := true);
      if q.need6 && !link.send6 then Sent(false, s1.(connected := false))
      else
        var s2 := if q.need6 then s1.(nqueries := s1.nqueries + 1) else s1;
        if q.need4 && !link.send4 then Sent(false, s2.(connected := false))
        else Sent(true, if q.need4 then s2.(nqueries := s2.nqueries + 1) else s2)
  }

  /** What a send attempt does to a server: success leaves it connected
      with one more query per family sent, failure leaves it disconnected. */
  lemma Send1Outcome(q: Query, s: Serv, link: Link)
    ensures var r := Send1(q, s, link);
      r.serv.addr == s.addr && r.serv.port == s.port && r.serv.saddr == s.saddr
      && (r.ok <==> (s.connected || (link.init && link.connect))
                    && (q.need6 ==> link.send6) && (q.need4 ==> link.send4))
      && (r.ok ==> r.serv.connected
                   && r.serv.nqueries == s.nqueries + (if q.need4 then 1 else 0) + (if q.need6 then 1 else 0))
      && (!r.ok ==> !r.serv.connected)
  {
  }

  /** query_send: each attempt spends one try before a server is chosen;
      with no tries left the query is finished with status -1. k is the
      number of attempts made so far in this event. */
  function Send(st: RState, key: u32, net: nat -> Link, k: nat): (o: Out)
    requires key in st.queries
    requires st.queries[key].triesLeft > 0 ==> st.cur < |st.servs|
    decreases st.queries[key].triesLeft
  {
    var q := st.queries[key];
    if q.triesLeft == 0 then Fin(st, key, -1, None).(sent := k)
    else
      var q1 := q.(triesLeft := q.triesLeft - 1);
      var (i, c) := ServNext(st.servs, st.cur);
      var r := Send1(q1, st.servs[i], net(k));
      var st1 := RState(st.queries[key := q1], st.servs[i := r.serv], c);
      if r.ok then Out(st1, 0, [], [], k + 1) else Send(st1, key, net, k + 1)
  }

  // ----------------------------------------------------------- completion

  /** A stored result as 16-byte addresses: IPv4 ones in the mapped form. */
  function AddrsOf(r: Res): (a: seq<seq<byte>>)
    ensures |a| == |r.addrs|
  {
    if r.is4 then seq(|r.addrs|, j requires 0 <= j < |r.addrs| => Mapped(r.addrs[j])) else r.addrs
  }

  /** The addresses of the stored results of one family, in order. */
  function Family(res: seq<Res>, v4: bool): seq<seq<byte>>
  {
    if res == [] then [] else (if res[0].is4 == v4 then AddrsOf(res[0]) else []) + Family(res[1..], v4)
  }

  /** The address list of a result: IPv4 addresses first, then IPv6. */
  function Ips(res: seq<Res>): seq<seq<byte>>
  {
    Family(res, true) + Family(res, false)
  }

  /** The number of stored addresses. */
  function Total(res: seq<Res>): nat
  {
    if res == [] then 0 else |res[0].addrs| + Total(res[1..])
  }

  function Notify(users: seq<User>, r: Result): (n: seq<Note>)
    ensures |n| == |users| && forall i :: 0 <= i < |users| ==> n[i] == Note(users[i], r)
  {
    if users == [] then [] else [Note(users[0], r)] + Notify(users[1..], r)
  }

  /** query_fin: the query leaves the table and every waiter, in order, is
      called once with the same result. */
  function Fin(st: RState, key: u32, status: int, serv: Option<nat>): Out
    requires key in st.queries
    requires serv.Some? ==> serv.value < |st.servs|
  {
    var q := st.queries[key];
    var result := Result(q.name, status, Ips(q.res), if serv.Some? then st.servs[serv.value].saddr else []);
    Out(st.(queries := st.queries - {key}), 0, Notify(q.users, result), [], 0)
  }

  // ------------------------------------------------------------- responses

  /** A response that ans_find_query can look up: a decoded header with
      the response bit, exactly one question, of class IN, with a name. */
  predicate WellFormed(m: Msg)
  {
    m.header.Some? && m.header.value.response && m.header.value.questions == 1
    && m.question.Some? && |m.question.value.name| > 0 && m.question.value.qclass == ClassIn
  }

  /** The question name without its trailing root dot. */
  function QName(m: Msg): Name
    requires m.question.Some? && |m.question.value.name| > 0
  {
    m.question.value.name[..|m.question.value.name| - 1]
  }

  /** The pending query under hash(name) whose stored name is byte-for-byte name. */
  function Lookup(queries: map<u32, Query>, hash: Name -> u32, name: Name): (r: Option<u32>)
    ensures r.Some? ==> r.value in queries && queries[r.value].name == name
  {
    var key := hash(name);
    if key in queries && queries[key].name == name then Some(key) else None
  }

  /** ans_find_query, looking up with the hash the table is keyed by. */
  function FindQuery(st: RState, env: Env, m: Msg): (r: Option<u32>)
    ensures r.Some? ==> r.value in st.queries
  {
    if !WellFormed(m) then None else Lookup(st.queries, env.icrc, QName(m))
  }

  /** The family a response ID answers: the A query while it is needed,
      else the AAAA query while it is needed. */
  function Answers(q: Query, id: u16): Option<bool>
  {
    if q.need4 && id == q.txid4 then Some(true)
    else if q.need6 && id == q.txid6 then Some(false)
    else None
  }

  /** ans_proc_resp: the result for the family from the kept records and
      their least TTL, or nothing when no record is kept. */
  function ProcResp(ans: seq<Answer>, count: nat, is4: bool): (p: Option<(Res, u32)>)
    ensures p.Some? ==> ResValid(p.value.0) && p.value.0.is4 == is4
  {
    var kept := KeptOf(Records(ans, count), is4);
    if kept == [] then None
    else
      CountMatchesCopy(ans, count, is4);
      Some((Res(is4, DataOf(kept)), MinTtl(kept)))
  }

  /** The status after a response: an error RCODE counts only while no
      result is stored; kept records give NOERROR; no kept records and no
      stored result give -1. */
  function NewStatus(q: Query, rcode: nat, stored: bool): int
  {
    if rcode != NoError then (if |q.res| == 0 then rcode else q.status)
    else if stored then NoError
    else if |q.res| == 0 then -1
    else q.status
  }

  /** The TTL handed to the cache: the lesser of the first and the last
      stored TTL. */
  function CacheTtl(q: Query): u32
    requires 0 < |q.ttl|
  {
    Min(q.ttl[0], q.ttl[|q.ttl| - 1])
  }

  /** The oncomplete calls at completion, one per stored result; with no
      stored result there are none and no TTL is read. */
  function CacheNotes(q: Query): (c: seq<CacheNote>)
    requires |q.res| == |q.ttl|
    ensures |c| == |q.res|
  {
    if |q.res| == 0 then []
    else seq(|q.res|, i requires 0 <= i < |q.res| => CacheNote(q.res[i], q.name, |q.users|, CacheTtl(q)))
  }

  /** The query after the response for one family. */
  function Answered(q: Query, is4: bool, h: Header, ans: seq<Answer>): (q2: Query)
    ensures q2.users == q.users && q2.name == q.name && q2.triesLeft == q.triesLeft
  {
    var p := if h.rcode != NoError then None else ProcResp(ans, h.answers, is4);
    var q1 := if is4 then q.(need4 := false) else q.(need6 := false);
    q1.(res := q.res + (if p.Some? then [p.value.0] else []),
        ttl := q.ttl + (if p.Some? then [p.value.1] else []),
        status := NewStatus(q, h.rcode, p.Some?))
  }

  /** ans_proc after the query is found and the family known: store the
      outcome; once neither family is needed, call the cache hook for each
      result and finish the query with its status. */
  function Got(st: RState, key: u32, is4: bool, m: Msg, serv: nat): Out
    requires key in st.queries && m.header.Some? && serv < |st.servs|
    requires |st.queries[key].res| == |st.queries[key].ttl|
  {
    var q2 := Answered(st.queries[key], is4, m.header.value, m.answers);
    var st1 := st.(queries := st.queries[key := q2]);
    if q2.need4 || q2.need6 then Out(st1, 0, [], [], 0)
    else Fin(st1, key, q2.status, Some(serv)).(cache := CacheNotes(q2))
  }

  /** ans_proc: a response from server serv. */
  function Receive(st: RState, env: Env, serv: nat, m: Msg): Out
    requires Consistent(st, env) && serv < |st.servs|
  {
    var key := FindQuery(st, env, m);
    if key.None? then Out(st, 0, [], [], 0)
    else
      var f := Answers(st.queries[key.value], m.header.value.id);
      if f.None? then Out(st, 0, [], [], 0)
      else Got(st, key.value, f.value, m, serv)
  }

  /** Whether the response is taken: it finds its query and answers a
      family that query still needs. */
  predicate Accepted(st: RState, env: Env, m: Msg)
  {
    var key := FindQuery(st, env, m);
    key.Some? && Answers(st.queries[key.value], m.header.value.id).Some?
  }

  // ------------------------------------------------------- resolve, cancel

  /** The first position of u in users, or |users|. */
  function FirstIndex(users: seq<User>, u: User): (i: nat)
    ensures i <= |users| && (i < |users| ==> users[i] == u)
    ensures forall j :: 0 <= j < i ==> users[j] != u
  {
    if users == [] then 0 else if users[0] == u then 0 else 1 + FirstIndex(users[1..], u)
  }

  /** Remove position i by moving the last element into it. */
  function SwapRemove(s: seq<User>, i: nat): (r: seq<User>)
    requires i < |s|
  {
    if i == |s| - 1 then s[..i] else s[..i] + [s[|s| - 1]] + s[i + 1..|s| - 1]
  }

  /** query_rmuser: 1 when there is no query for the name, on a hash
      collision, or when no waiter matches; otherwise the first matching
      waiter is removed and 0 returned. */
  function Cancel(st: RState, env: Env, name: Name, u: User): Out
  {
    var key := env.icrc(name);
    if key !in st.queries || st.queries[key].name != name then Out(st, 1, [], [], 0)
    else
      var q := st.queries[key];
      var i := FirstIndex(q.users, u);
      if i == |q.users| then Out(st, 1, [], [], 0)
      else Out(st.(queries := st.queries[key := q.(users := SwapRemove(q.users, i))]), 0, [], [], 0)
  }

  /** The new query for name: A always, AAAA when IPv6 is enabled. */
  function NewQuery(env: Env, name: Name, u: User, txid4: u16, txid6: u16, b4: seq<byte>): Query
  {
    Query(name, env.maxTries, [], [], 0, [u], txid4, if env.enableIpv6 then txid6 else 0,
          true, env.enableIpv6, b4, if env.enableIpv6 then env.prep(txid6, name, TypeAaaa) else [])
  }

  /** A resolve call can reach serv_next only with a server configured. */
  predicate CanSend(st: RState, env: Env)
  {
    |st.servs| > 0 || env.maxTries == 0
  }

  /** ffdnscl_resolve. A pending query for the same name gets one more
      waiter; a hash collision or a name that cannot be encoded is reported
      to the caller at once with status -1; otherwise a new query is stored
      and sent. The collision path leaves the table alone. */
  function Resolve(st: RState, env: Env, name: Name, u: User, flags: nat, txid4: u16, txid6: u16,
                   net: nat -> Link): Out
    requires Consistent(st, env) && CanSend(st, env)
  {
    if flags % 2 == CancelFlag then Cancel(st, env, name, u)
    else
      var key := env.icrc(name);
      if key in st.queries then
        var q := st.queries[key];
        if q.name != name then Out(st, 0, [Note(u, Failed(name))], [], 0)
        else Out(st.(queries := st.queries[key := q.(users := q.users + [u])]), 0, [], [], 0)
      else
        var b4 := env.prep(txid4, name, TypeA);
        if |b4| == 0 then Out(st, 0, [Note(u, Failed(name))], [], 0)
        else Send(st.(queries := st.queries[key := NewQuery(env, name, u, txid4, txid6, b4)]), key, net, 0)
  }

  /** query_onexpire: the retry timer of a pending query fired. */
  function Expire(st: RState, key: u32, net: nat -> Link): Out
    requires key in st.queries && (st.queries[key].triesLeft > 0 ==> st.cur < |st.servs|)
  {
    if st.queries[key].triesLeft == 0 then Fin(st, key, -1, None) else Send(st, key, net, 0)
  }

  // ================================================================ properties

  // ------------------------------------------------------- send budget

  /** query_send spends one try per attempt: either some attempt succeeds
      and the query stays pending with that many fewer tries, or the tries
      run out and every waiter is told -1. Nothing else in the table
      changes. */
  lemma {:induction false} SendBudget(st: RState, key: u32, net: nat -> Link, k: nat)
    requires key in st.queries
    requires st.queries[key].triesLeft > 0 ==> st.cur < |st.servs|
    decreases st.queries[key].triesLeft
    ensures var q, o := st.queries[key], Send(st, key, net, k);
      |o.st.servs| == |st.servs| && (o.st.cur == st.cur || o.st.cur < |st.servs|)
      && o.st.queries - {key} == st.queries - {key}
      && o.rc == 0 && o.cache == [] && k <= o.sent <= k + q.triesLeft
      && (key in o.st.queries ==>
            o.sent > k && o.notes == [] && o.st.cur < |st.servs|
            && o.st.queries[key] == q.(triesLeft := q.triesLeft - (o.sent - k)))
      && (key !in o.st.queries ==>
            o.sent == k + q.triesLeft && o.notes == Notify(q.users, Result(q.name, -1, Ips(q.res), [])))
  {
    var q := st.queries[key];
    if q.triesLeft > 0 {
      var q1 := q.(triesLeft := q.triesLeft - 1);
      var (i, c) := ServNext(st.servs, st.cur);
      var r := Send1(q1, st.servs[i], net(k));
      var st1 := RState(st.queries[key := q1], st.servs[i := r.serv], c);
      if !r.ok {
        SendBudget(st1, key, net, k + 1);
        assert st1.queries - {key} == st.queries - {key};
      } else {
        assert st1.queries - {key} == st.queries - {key};
      }
    }
  }

  /** query_onexpire: with no tries left the query is finished with -1;
      otherwise it is sent again under the same budget. */
  lemma ExpireBudget(st: RState, key: u32, net: nat -> Link)
    requires key in st.queries && (st.queries[key].triesLeft > 0 ==> st.cur < |st.servs|)
    ensures var q, o := st.queries[key], Expire(st, key, net);
      o.st.queries - {key} == st.queries - {key} && o.sent <= q.triesLeft
      && (q.triesLeft == 0 ==>
            key !in o.st.queries && o.sent == 0 && o.notes == Notify(q.users, Result(q.name, -1, Ips(q.res), [])))
      && (key in o.st.queries ==>
            o.sent > 0 && o.notes == [] && o.st.queries[key] == q.(triesLeft := q.triesLeft - o.sent))
      && (key !in o.st.queries ==> o.sent == q.triesLeft)
  {
    SendBudget(st, key, net, 0);
  }

  /** The attempts of successive timer expiries of one query, with net[j]
      the socket outcomes of the j-th expiry; done when the query finished. */
  datatype Lifetime = Lifetime(sent: nat, st: RState, done: bool)

  function Expiries(st: RState, key: u32, nets: seq<nat -> Link>): Lifetime
    requires key in st.queries && (st.queries[key].triesLeft > 0 ==> st.cur < |st.servs|)
    decreases |nets|
  {
    if nets == [] then Lifetime(0, st, false)
    else
      var o := Expire(st, key, nets[0]);
      ExpireBudget(st, key, nets[0]);
      SendBudget(st, key, nets[0], 0);
      if key !in o.st.queries then Lifetime(o.sent, o.st, true)
      else
        var l := Expiries(o.st, key, nets[1..]);
        Lifetime(o.sent + l.sent, l.st, l.done)
  }

  /** Over any run of expiries the attempts made plus the tries left are
      the tries the query had; a finished query spent them all. */
  lemma {:induction false} ExpiriesBudget(st: RState, key: u32, nets: seq<nat -> Link>)
    requires key in st.queries && (st.queries[key].triesLeft > 0 ==> st.cur < |st.servs|)
    decreases |nets|
    ensures var l := Expiries(st, key, nets);
      (l.done <==> key !in l.st.queries)
      && (l.done ==> l.sent == st.queries[key].triesLeft)
      && (!l.done ==> l.sent + l.st.queries[key].triesLeft == st.queries[key].triesLeft)
  {
    if nets != [] {
      var o := Expire(st, key, nets[0]);
      ExpireBudget(st, key, nets[0]);
      SendBudget(st, key, nets[0], 0);
      if key in o.st.queries {
        ExpiriesBudget(o.st, key, nets[1..]);
      }
    }
  }

  /** A query cannot outlive its budget: after more expiries than it has
      tries it is finished. */
  lemma {:induction false} ExpiriesEnd(st: RState, key: u32, nets: seq<nat -> Link>)
    requires key in st.queries && (st.queries[key].triesLeft > 0 ==> st.cur < |st.servs|)
    requires |nets| > st.queries[key].triesLeft
    decreases |nets|
    ensures Expiries(st, key, nets).done
  {
    var o := Expire(st, key, nets[0]);
    ExpireBudget(st, key, nets[0]);
    SendBudget(st, key, nets[0], 0);
    if key in o.st.queries {
      ExpiriesEnd(o.st, key, nets[1..]);
    }
  }

  // ------------------------------------------------------------- resolve

  /** A pending query for the same name gets one more waiter, appended
      even if the same pair already waits, and nothing is sent. */
  lemma ResolveHit(st: RState, env: Env, name: Name, u: User, flags: nat, txid4: u16, txid6: u16, net: nat -> Link)
    requires Consistent(st, env) && CanSend(st, env) && flags % 2 == 0
    requires env.icrc(name) in st.queries && st.queries[env.icrc(name)].name == name
    ensures var q, o := st.queries[env.icrc(name)], Resolve(st, env, name, u, flags, txid4, txid6, net);
      o.rc == 0 && o.notes == [] && o.sent == 0 && o.st.servs == st.servs && o.st.cur == st.cur
      && o.st.queries == st.queries[env.icrc(name) := q.(users := q.users + [u])]
      && |o.st.queries[env.icrc(name)].users| == |q.users| + 1
  {
  }

  /** A hash collision or a name the encoder refuses: the caller alone is
      told -1, once, and the resolver is left as it was. */
  lemma ResolveRefused(st: RState, env: Env, name: Name, u: User, flags: nat, txid4: u16, txid6: u16, net: nat -> Link)
    requires Consistent(st, env) && CanSend(st, env) && flags % 2 == 0
    requires var key := env.icrc(name);
      (key in st.queries && st.queries[key].name != name) || (key !in st.queries && |env.prep(txid4, name, TypeA)| == 0)
    ensures Resolve(st, env, name, u, flags, txid4, txid6, net) == Out(st, 0, [Note(u, Failed(name))], [], 0)
  {
  }

  /** A new query is stored under the hash of its name and sent: it either
      stays pending with its one waiter and tries maxTries minus the
      attempts made, or, when every attempt failed, the caller is told -1
      after exactly maxTries attempts. The call returns 0. */
  lemma ResolveNew(st: RState, env: Env, name: Name, u: User, flags: nat, txid4: u16, txid6: u16, net: nat -> Link)
    requires Consistent(st, env) && CanSend(st, env) && flags % 2 == 0
    requires env.icrc(name) !in st.queries && |env.prep(txid4, name, TypeA)| > 0
    ensures var key, o := env.icrc(name), Resolve(st, env, name, u, flags, txid4, txid6, net);
      o.rc == 0 && o.st.queries - {key} == st.queries && o.sent <= env.maxTries
      && (key in o.st.queries ==>
            var q := o.st.queries[key];
            o.notes == [] && o.sent > 0 && q.users == [u] && q.name == name && q.triesLeft == env.maxTries - o.sent
            && q.need4 && q.need6 == env.enableIpv6 && q.txid4 == txid4 && q.res == [])
      && (key !in o.st.queries ==> o.sent == env.maxTries && o.notes == [Note(u, Failed(name))])
  {
    var key := env.icrc(name);
    var q := NewQuery(env, name, u, txid4, txid6, env.prep(txid4, name, TypeA));
    var st1 := st.(queries := st.queries[key := q]);
    SendBudget(st1, key, net, 0);
    assert st1.queries - {key} == st.queries;
    assert Ips([]) == [];
    assert Notify([u], Failed(name)) == [Note(u, Failed(name))];
  }

  // -------------------------------------------------------------- cancel

  lemma SwapRemoveSpec(s: seq<User>, i: nat)
    requires i < |s|
    ensures var r := SwapRemove(s, i);
      |r| == |s| - 1 && multiset(r) == multiset(s) - multiset{s[i]}
      && forall j :: 0 <= j < |r| ==> r[j] == if j == i then s[|s| - 1] else s[j]
  {
    SwapRemoveAt(s, i);
    var n := |s|;
    if i < n - 1 {
      var a, c := s[..i], s[i + 1..n - 1];
      assert s == a + [s[i]] + c + [s[n - 1]] by {
        assert forall j :: 0 <= j < n ==> s[j] == (a + [s[i]] + c + [s[n - 1]])[j];
      }
      SwapRemoveBag(a, s[i], c, s[n - 1]);
    } else {
      assert s == s[..i] + [s[i]];
    }
  }

  lemma SwapRemoveAt(s: seq<User>, i: nat)
    requires i < |s|
    ensures var r := SwapRemove(s, i);
      |r| == |s| - 1 && forall j :: 0 <= j < |r| ==> r[j] == if j == i then s[|s| - 1] else s[j]
  {
  }

  lemma SwapRemoveBag(a: seq<User>, x: User, c: seq<User>, y: User)
    ensures multiset(a + [y] + c) == multiset(a + [x] + c + [y]) - multiset{x}
  {
    calc {
      multiset(a + [x] + c + [y]);
      multiset(a) + multiset{x} + multiset(c) + multiset{y};
    }
    calc {
      multiset(a + [y] + c);
      multiset(a) + multiset{y} + multiset(c);
    }
  }

  /** query_rmuser fails, changing nothing, exactly when there is no query
      for the name, the name collides, or no waiter is that pair. */
  lemma CancelMisses(st: RState, env: Env, name: Name, u: User)
    ensures var key, o := env.icrc(name), Cancel(st, env, name, u);
      (o.rc == 1 <==> key !in st.queries || st.queries[key].name != name || u !in st.queries[key].users)
      && (o.rc == 1 ==> o.st == st) && (o.rc == 0 || o.rc == 1) && o.notes == [] && o.sent == 0
  {
    var key := env.icrc(name);
    if key in st.queries && st.queries[key].name == name {
      var us := st.queries[key].users;
      var i := FirstIndex(us, u);
      if i == |us| {
        assert u !in us;
      }
    }
  }

  /** A successful cancel removes one waiter equal to the pair, by moving
      the last waiter into its place; the query keeps everything else, and
      the rest of the table and the servers are unchanged. */
  lemma CancelRemovesOne(st: RState, env: Env, name: Name, u: User)
    requires Cancel(st, env, name, u).rc == 0
    ensures var key, o := env.icrc(name), Cancel(st, env, name, u);
      key in st.queries && key in o.st.queries
      && var q, q' := st.queries[key], o.st.queries[key];
      u in q.users && multiset(q'.users) == multiset(q.users) - multiset{u}
      && q' == q.(users := q'.users) && |q'.users| == |q.users| - 1
      && o.st.queries - {key} == st.queries - {key} && o.st.servs == st.servs && o.st.cur == st.cur
    ensures var key, o := env.icrc(name), Cancel(st, env, name, u);
      key in st.queries && key in o.st.queries
      && var us, us' := st.queries[key].users, o.st.queries[key].users;
      exists i :: 0 <= i < |us| && us[i] == u && (forall j :: 0 <= j < i ==> us[j] != u)
        && |us'| == |us| - 1
        && forall j :: 0 <= j < |us'| ==> us'[j] == if j == i then us[|us| - 1] else us[j]
  {
    var key := env.icrc(name);
    var q := st.queries[key];
    var i := FirstIndex(q.users, u);
    SwapRemoveSpec(q.users, i);
    assert q.users[i] == u;
  }

  // ----------------------------------------------------------- responses

  /** With the table consistent, a response names its query exactly when
      some pending query has that name, with the root dot stripped. */
  lemma FindQueryByName(st: RState, env: Env, m: Msg)
    requires Consistent(st, env)
    ensures FindQuery(st, env, m).Some? <==>
      WellFormed(m) && exists k :: k in st.queries && st.queries[k].name == QName(m)
    ensures FindQuery(st, env, m).Some? ==> st.queries[FindQuery(st, env, m).value].name == QName(m)
  {
  }

  /** A datagram is discarded, changing nothing and calling no one, unless
      it is a well-formed response with one IN question naming a pending
      query, and its ID is that of a family the query still needs. An
      accepted one always changes the state. */
  lemma Discard(st: RState, env: Env, serv: nat, m: Msg)
    requires Consistent(st, env) && serv < |st.servs|
    ensures !Accepted(st, env, m) ==> Receive(st, env, serv, m) == Out(st, 0, [], [], 0)
    ensures Accepted(st, env, m) ==> Receive(st, env, serv, m).st != st
    ensures Accepted(st, env, m) <==>
      WellFormed(m) && exists k :: k in st.queries && st.queries[k].name == QName(m)
                                   && Answers(st.queries[k], m.header.value.id).Some?
  {
    FindQueryByName(st, env, m);
    if Accepted(st, env, m) {
      var key := FindQuery(st, env, m).value;
      var q := st.queries[key];
      var f := Answers(q, m.header.value.id).value;
      var q2 := Answered(q, f, m.header.value, m.answers);
      var o := Receive(st, env, serv, m);
      if key in o.st.queries {
        assert o.st.queries[key] == q2;
        assert if f then q.need4 && !q2.need4 else q.need6 && !q2.need6;
      }
    }
  }

  /** Each family is answered at most once: after a response is taken for
      a family, no later ID matches that family while the query pends. */
  lemma AnsweredOnce(st: RState, env: Env, serv: nat, m: Msg, id: u16)
    requires Consistent(st, env) && serv < |st.servs| && Accepted(st, env, m)
    ensures var key := FindQuery(st, env, m).value;
      var f := Answers(st.queries[key], m.header.value.id).value;
      var o := Receive(st, env, serv, m);
      key in o.st.queries ==> Answers(o.st.queries[key], id) != Some(f)
  {
  }

  /** The status rule: an error RCODE is kept only while there is no
      stored result and stores nothing; a NOERROR response with kept
      records stores them with their least TTL and sets NOERROR; one with
      none stores nothing and sets -1 unless a result is stored. */
  lemma StatusRule(q: Query, is4: bool, h: Header, ans: seq<Answer>)
    ensures var q2, kept := Answered(q, is4, h, ans), KeptOf(Records(ans, h.answers), is4);
      (if is4 then !q2.need4 && q2.need6 == q.need6 else !q2.need6 && q2.need4 == q.need4)
      && (h.rcode != NoError ==>
            q2.res == q.res && q2.ttl == q.ttl && q2.status == if |q.res| == 0 then h.rcode else q.status)
      && (h.rcode == NoError && kept != [] ==>
            q2.res == q.res + [Res(is4, DataOf(kept))] && q2.ttl == q.ttl + [MinTtl(kept)] && q2.status == NoError
            && forall i :: 0 <= i < |kept| ==> MinTtl(kept) <= kept[i].ttl)
      && (h.rcode == NoError && kept == [] ==>
            q2.res == q.res && q2.ttl == q.ttl && q2.status == if |q.res| == 0 then -1 else q.status)
  {
  }

  /** Completion happens only once neither family is needed: the query
      then leaves the table, the cache hook is called once per stored
      result with the waiter count, and every waiter is called once, in
      order, with the same result, whose address list holds all stored
      addresses, IPv4 first. */
  lemma Completion(st: RState, key: u32, is4: bool, m: Msg, serv: nat)
    requires key in st.queries && m.header.Some? && serv < |st.servs|
    requires |st.queries[key].res| == |st.queries[key].ttl|
    ensures var q2, o := Answered(st.queries[key], is4, m.header.value, m.answers), Got(st, key, is4, m, serv);
      ((q2.need4 || q2.need6) ==>
         o.st.queries == st.queries[key := q2] && o.notes == [] && o.cache == [])
      && (!(q2.need4 || q2.need6) ==>
         var r := Result(q2.name, q2.status, Ips(q2.res), st.servs[serv].saddr);
         o.st.queries == st.queries - {key} && o.st.servs == st.servs
         && |o.notes| == |q2.users| && (forall i :: 0 <= i < |q2.users| ==> o.notes[i] == Note(q2.users[i], r))
         && |r.ips| == Total(q2.res)
         && |o.cache| == |q2.res|
         && forall i :: 0 <= i < |q2.res| ==> o.cache[i].res == q2.res[i] && o.cache[i].refcount == |q2.users|)
  {
    var q2 := Answered(st.queries[key], is4, m.header.value, m.answers);
    IpsTotal(q2.res);
  }

  // ------------------------------------------------------- address list

  lemma {:induction false} IpsTotal(res: seq<Res>)
    ensures |Ips(res)| == Total(res)
  {
    FamilyTotal(res);
  }

  lemma {:induction false} FamilyTotal(res: seq<Res>)
    ensures |Family(res, true)| + |Family(res, false)| == Total(res)
  {
    if res != [] {
      FamilyTotal(res[1..]);
    }
  }

  /** The IPv4-mapped prefix ::ffff: . */
  const MappedPrefix: seq<byte> := [0, 0, 0, 0, 0, 0, 0, 0, 0, 0, 0xff, 0xff]

  /** Every address of the list is 16 bytes; the IPv4 part is in the
      IPv4-mapped form. */
  lemma {:induction false} IpsForm(res: seq<Res>)
    requires forall i :: 0 <= i < |res| ==> ResValid(res[i])
    ensures forall a :: a in Family(res, true) ==> |a| == 16 && a[..12] == MappedPrefix
    ensures forall a :: a in Family(res, false) ==> |a| == 16
  {
    if res != [] {
      IpsForm(res[1..]);
      var r := res[0];
      assert forall a :: a in AddrsOf(r) && r.is4 ==> |a| == 16 && a[..12] == MappedPrefix by {
        forall a | a in AddrsOf(r) && r.is4
          ensures |a| == 16 && a[..12] == MappedPrefix
        {
          var j :| 0 <= j < |AddrsOf(r)| && AddrsOf(r)[j] == a;
          assert a == Mapped(r.addrs[j]);
        }
      }
    }
  }

  /** The position query_fin starts copying from: the last stored IPv4
      result with addresses, else 0. */
  function I4(res: seq<Res>): (i: nat)
    ensures i == 0 || i < |res|
  {
    if res == [] then 0
    else if |res[|res| - 1].addrs| != 0 && res[|res| - 1].is4 then |res| - 1
    else I4(res[..|res| - 1])
  }

  // ------------------------------------------------------------ findings

  /** The two foreign hashes are related as CRC-32 and its ASCII
      case-insensitive variant are: `ffcrc32_iget` hashes the name folded
      to lower case the way `ffcrc32_get` hashes it. */
  ghost predicate HashesAgree(env: Env)
  {
    forall n :: env.icrc(n) == env.crc(Lower(n))
  }

  /** ans_find_query as written hashes the response name case-sensitively. */
  function FindQueryAsWritten(st: RState, env: Env, m: Msg): Option<u32>
    requires HashesAgree(env)
  {
    if !WellFormed(m) then None else Lookup(st.queries, env.crc, QName(m))
  }

  /** A pending name with an upper-case letter, whose case-sensitive hash
      differs from that of its lower-case form, is never found as written,
      while the lookup by the table's own hash finds it. */
  lemma HashAsymmetryAsWritten(st: RState, env: Env, m: Msg)
    requires Consistent(st, env) && HashesAgree(env) && WellFormed(m)
    requires exists k :: k in st.queries && st.queries[k].name == QName(m)
    requires env.crc(QName(m)) != env.crc(Lower(QName(m)))
    ensures exists i :: 0 <= i < |QName(m)| && 0x41 <= QName(m)[i] <= 0x5a
    ensures FindQueryAsWritten(st, env, m) == None
    ensures FindQuery(st, env, m).Some?
  {
    FindQueryByName(st, env, m);
    var n := QName(m);
    assert Lower(n) != n;
    var i :| 0 <= i < |n| && Lower(n)[i] != n[i];
  }

  /** A pending name without upper-case letters hashes the same both ways,
      so as written its response is found, at the key the table uses. */
  lemma LowerCaseFoundAsWritten(st: RState, env: Env, m: Msg)
    requires Consistent(st, env) && HashesAgree(env) && WellFormed(m)
    requires exists k :: k in st.queries && st.queries[k].name == QName(m)
    requires forall i :: 0 <= i < |QName(m)| ==> !(0x41 <= QName(m)[i] <= 0x5a)
    ensures FindQueryAsWritten(st, env, m).Some?
    ensures FindQueryAsWritten(st, env, m) == FindQuery(st, env, m)
  {
    FindQueryByName(st, env, m);
    var n := QName(m);
    assert Lower(n) == n;
  }

  /** The lookup part of ffdnscl_resolve as written, for a name whose hash
      is in the table. On a name mismatch it jumps to fail with q still
      set, so query_free releases that query while its node stays in the
      tree, and the caller is told -1; on a hit the waiter is appended.
      Gives the state after, the keys of freed queries, and the callbacks. */
  function ResolveFoundAsWritten(st: RState, env: Env, name: Name, u: User): (RState, set<u32>, seq<Note>)
    requires env.icrc(name) in st.queries
  {
    var key := env.icrc(name);
    var q := st.queries[key];
    if q.name != name then (st, {key}, [Note(u, Failed(name))])
    else (st.(queries := st.queries[key := q.(users := q.users + [u])]), {}, [])
  }

  /** As written, a query still in the table is freed exactly on a
      collision; the callbacks are those of the corrected Resolve, and when
      nothing is freed so is the new state. */
  lemma CollisionFreesLiveAsWritten(st: RState, env: Env, name: Name, u: User, flags: nat, txid4: u16, txid6: u16,
                                    net: nat -> Link)
    requires Consistent(st, env) && CanSend(st, env) && flags % 2 == 0 && env.icrc(name) in st.queries
    ensures var (st2, freed, _) := ResolveFoundAsWritten(st, env, name, u);
      (exists k :: k in freed && k in st2.queries) <==> st.queries[env.icrc(name)].name != name
    ensures var (st2, freed, notes) := ResolveFoundAsWritten(st, env, name, u);
      var o := Resolve(st, env, name, u, flags, txid4, txid6, net);
      notes == o.notes && (freed == {} ==> st2 == o.st)
  {
    var key := env.icrc(name);
    if st.queries[key].name != name {
      assert key in ResolveFoundAsWritten(st, env, name, u).1;
      ResolveRefused(st, env, name, u, flags, txid4, txid6, net);
    } else {
      ResolveHit(st, env, name, u, flags, txid4, txid6, net);
    }
  }

  /** The index of the TTL ans_proc reads as written: nres - 1. */
  function TtlIndexAsWritten(q: Query): int
  {
    |q.res| - 1
  }

  /** With IPv6 off, an error reply to the A query completes the query
      with nothing stored, and the TTL index read as written is -1; the
      model reads no TTL and makes no cache call then. */
  lemma TtlOutOfBoundsAsWritten(st: RState, env: Env, key: u32, m: Msg, serv: nat)
    requires Consistent(st, env) && key in st.queries && serv < |st.servs| && m.header.Some?
    requires var q := st.queries[key];
      q.need4 && !q.need6 && |q.res| == 0 && m.header.value.id == q.txid4 && m.header.value.rcode != NoError
    ensures var q2 := Answered(st.queries[key], true, m.header.value, m.answers);
      !q2.need4 && !q2.need6 && TtlIndexAsWritten(q2) == -1
      && key !in Got(st, key, true, m, serv).st.queries && Got(st, key, true, m, serv).cache == []
  {
  }

  /** ffdnscl_free as written: pending queries are dropped without a call
      to their waiters. */
  function FreeAsWritten(st: RState): Out
  {
    Out(RState(map[], [], 0), 0, [], [], 0)
  }

  predicate IsMinKey(k: u32, keys: set<u32>)
  {
    k in keys && forall k' :: k' in keys ==> k <= k'
  }

  lemma {:induction false} MinKeyExists(keys: set<u32>)
    requires keys != {}
    decreases |keys|
    ensures exists k :: IsMinKey(k, keys)
  {
    var x :| x in keys;
    var rest := keys - {x};
    if rest != {} {
      MinKeyExists(rest);
      var m :| IsMinKey(m, rest);
      var k := if x < m then x else m;
      forall k' | k' in keys
        ensures k <= k'
      {
        if k' != x {
          assert k' in rest;
        }
      }
      assert IsMinKey(k, keys);
    } else {
      assert keys == {x};
      assert IsMinKey(x, keys);
    }
  }

  ghost function MinKey(keys: set<u32>): (k: u32)
    requires keys != {}
    ensures IsMinKey(k, keys)
  {
    MinKeyExists(keys);
    var k :| IsMinKey(k, keys); k
  }

  /** The corrected teardown: the queries are finished with -1 in key
      order, as the tree walk visits them. */
  ghost function Drain(queries: map<u32, Query>): seq<Note>
    decreases |queries|
  {
    if queries == map[] then []
    else
      var k := MinKey(queries.Keys);
      var q := queries[k];
      Notify(q.users, Result(q.name, -1, Ips(q.res), [])) + Drain(queries - {k})
  }

  /** Every waiter of every pending query is called by the corrected
      teardown with status -1, while as written none is. */
  lemma {:induction false} TeardownNotifies(queries: map<u32, Query>, key: u32, i: nat)
    requires key in queries && i < |queries[key].users|
    decreases |queries|
    ensures var q := queries[key];
      Note(q.users[i], Result(q.name, -1, Ips(q.res), [])) in Drain(queries)
  {
    var k := MinKey(queries.Keys);
    if k != key {
      TeardownNotifies(queries - {k}, key, i);
    } else {
      var q := queries[k];
      assert Notify(q.users, Result(q.name, -1, Ips(q.res), []))[i] == Note(q.users[i], Result(q.name, -1, Ips(q.res), []));
    }
  }

  lemma TeardownDropsAsWritten(st: RState, key: u32)
    requires key in st.queries && |st.queries[key].users| > 0
    ensures FreeAsWritten(st).notes == [] && FreeAsWritten(st).st.queries == map[]
    ensures var q := st.queries[key];
      Note(q.users[0], Result(q.name, -1, Ips(q.res), [])) in Drain(st.queries)
  {
    TeardownNotifies(st.queries, key, 0);
  }

  // ---------------------------------------------------------- invariant

  /** query_send keeps the invariant. */
  lemma ConsistentSend(st: RState, env: Env, key: u32, net: nat -> Link, k: nat)
    requires Consistent(st, env) && key in st.queries
    ensures Consistent(Send(st, key, net, k).st, env)
  {
    SendBudget(st, key, net, k);
    var o := Send(st, key, net, k);
    forall k' | k' in o.st.queries
      ensures k' == env.icrc(o.st.queries[k'].name) && QValid(o.st.queries[k'], env.maxTries)
              && (o.st.queries[k'].triesLeft > 0 ==> |o.st.servs| > 0)
    {
      if k' != key {
        assert k' in o.st.queries - {key};
      }
    }
  }

  lemma ConsistentExpire(st: RState, env: Env, key: u32, net: nat -> Link)
    requires Consistent(st, env) && key in st.queries
    ensures Consistent(Expire(st, key, net).st, env)
  {
    ConsistentSend(st, env, key, net, 0);
  }

  lemma ConsistentResolve(st: RState, env: Env, name: Name, u: User, flags: nat, txid4: u16, txid6: u16, net: nat -> Link)
    requires Consistent(st, env) && CanSend(st, env)
    ensures Consistent(Resolve(st, env, name, u, flags, txid4, txid6, net).st, env)
  {
    var key := env.icrc(name);
    if flags % 2 == 0 && key !in st.queries && |env.prep(txid4, name, TypeA)| > 0 {
      var q := NewQuery(env, name, u, txid4, txid6, env.prep(txid4, name, TypeA));
      ConsistentInsert(st, env, key, q);
      ConsistentSend(st.(queries := st.queries[key := q]), env, key, net, 0);
    }
  }

  lemma ConsistentInsert(st: RState, env: Env, key: u32, q: Query)
    requires Consistent(st, env) && key == env.icrc(q.name) && QValid(q, env.maxTries)
    requires q.triesLeft > 0 ==> |st.servs| > 0
    ensures Consistent(st.(queries := st.queries[key := q]), env)
  {
  }

  /** A response keeps the invariant: a family gets a result only while
      its flag is set, and the flag is cleared with it. */
  lemma ConsistentAnswered(q: Query, is4: bool, h: Header, ans: seq<Answer>, maxTries: nat)
    requires QValid(q, maxTries) && (if is4 then q.need4 else q.need6)
    ensures var q2 := Answered(q, is4, h, ans);
      Distinct(q2.res) && |q2.res| == |q2.ttl| && ((q2.need4 || q2.need6) ==> QValid(q2, maxTries))
  {
    var q2 := Answered(q, is4, h, ans);
    if |q2.res| > |q.res| {
      assert forall i :: 0 <= i < |q.res| ==> q.res[i].is4 != is4;
      assert q2.res[|q.res|].is4 == is4;
    }
  }

  lemma ConsistentReceive(st: RState, env: Env, serv: nat, m: Msg)
    requires Consistent(st, env) && serv < |st.servs|
    ensures Consistent(Receive(st, env, serv, m).st, env)
  {
    var key := FindQuery(st, env, m);
    if key.Some? {
      var q := st.queries[key.value];
      var f := Answers(q, m.header.value.id);
      if f.Some? {
        ConsistentAnswered(q, f.value, m.header.value, m.answers, env.maxTries);
      }
    }
  }

  lemma ConsistentAddServer(st: RState, env: Env, saddr: seq<byte>)
    requires Consistent(st, env)
    ensures Consistent(AddServer(st, saddr).st, env)
  {
  }

  /** ffdnscl_serv_add appends the server and moves the cursor to the
      first server; a malformed address or port changes nothing. */
  lemma AddServerResets(st: RState, saddr: seq<byte>)
    ensures var o := AddServer(st, saddr);
      (o.rc == 0 || o.rc == -1) && (o.rc == -1 ==> o.st == st)
      && (o.rc == 0 ==> o.st.cur == 0 && |o.st.servs| == |st.servs| + 1 && o.st.servs[..|st.servs|] == st.servs
                        && o.st.queries == st.queries
                        && var sv := o.st.servs[|st.servs|]; sv.saddr == saddr && !sv.connected && sv.nqueries == 0)
      && (o.rc == 0 <==> (IpSplit(saddr).Some?
                          && (IpSplit(saddr).value.1 == [] || IpText.ParseU16(IpSplit(saddr).value.1).Some?)
                          && IpText.Ip4ParseResult(IpSplit(saddr).value.0) == 0))
  {
  }

  /** A server given without a port uses port 53. */
  lemma AddServerDefaultPort(st: RState, saddr: seq<byte>)
    requires forall i :: 0 <= i < |saddr| ==> saddr[i] != Colon
    requires saddr == [] || saddr[0] != LBracket
    requires IpText.Ip4ParseResult(saddr) == 0
    ensures var o := AddServer(st, saddr);
      o.rc == 0 && o.st.servs[|st.servs|].port == DnsPort && o.st.servs[|st.servs|].addr == IpText.ParseIp4(saddr).addr
  {
    SplitAddressOnly(saddr);
  }

  lemma ConsistentCancel(st: RState, env: Env, name: Name, u: User)
    requires Consistent(st, env)
    ensures Consistent(Cancel(st, env, name, u).st, env)
  {
  }
}
