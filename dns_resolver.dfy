/** The resolver object of net/dns-client.c: the query table, the server
    list and the round-robin cursor as fields that its operations update in
    place. Each operation is proved to produce the state and the callbacks
    its specification function in DnsClient gives, and to keep the
    resolver's invariant. */
module DnsResolver {
  import opened Bytes
  import opened DnsMsg
  import opened DnsClient
  import IpText

  /** Total of a prefix extended by one result. */
  lemma {:induction false} TotalStep(res: seq<Res>, i: nat)
    requires i < |res|
    ensures Total(res[..i + 1]) == Total(res[..i]) + |res[i].addrs|
    decreases i
  {
    if i > 0 {
      assert res[..i + 1][1..] == res[1..][..i];
      assert res[..i][1..] == res[1..][..i - 1];
      TotalStep(res[1..], i - 1);
    }
  }

  lemma FamilyOfTwo(res: seq<Res>, v4: bool)
    requires |res| == 2
    ensures Family(res, v4) == (if res[0].is4 == v4 then AddrsOf(res[0]) else [])
                               + (if res[1].is4 == v4 then AddrsOf(res[1]) else [])
  {
    FamilyOfOne(res[1..], v4);
  }

  lemma FamilyOfOne(res: seq<Res>, v4: bool)
    requires |res| == 1
    ensures Family(res, v4) == if res[0].is4 == v4 then AddrsOf(res[0]) else []
  {
    assert res[1..] == [];
  }

  lemma I4OfTwo(res: seq<Res>)
    requires |res| == 2
    ensures I4(res) == if |res[1].addrs| != 0 && res[1].is4 then 1 else 0
  {
    assert res[..1][..0] == [];
  }

  lemma IpsOfTwo(res: seq<Res>)
    requires |res| == 2 && res[0].is4 != res[1].is4
    ensures Ips(res) == AddrsOf(res[I4(res)]) + AddrsOf(res[1 - I4(res)])
  {
    I4OfTwo(res);
    if res[0].is4 {
      IpsV4First(res, AddrsOf(res[0]), AddrsOf(res[1]));
    } else {
      IpsV6First(res, AddrsOf(res[0]), AddrsOf(res[1]));
    }
  }

  lemma IpsV4First(res: seq<Res>, a: seq<seq<byte>>, b: seq<seq<byte>>)
    requires |res| == 2 && res[0].is4 && !res[1].is4
    requires a == AddrsOf(res[0]) && b == AddrsOf(res[1])
    ensures Ips(res) == a + b
  {
    FamilyOfTwo(res, true);
    FamilyOfTwo(res, false);
    assert Family(res, true) == a + [];
    assert Family(res, false) == [] + b;
  }

  lemma IpsV6First(res: seq<Res>, a: seq<seq<byte>>, b: seq<seq<byte>>)
    requires |res| == 2 && !res[0].is4 && res[1].is4
    requires a == AddrsOf(res[0]) && b == AddrsOf(res[1])
    ensures Ips(res) == b + a
  {
    FamilyOfTwo(res, true);
    FamilyOfTwo(res, false);
    assert Family(res, true) == [] + b;
    assert Family(res, false) == a + [];
  }

  /** The order query_fin copies in, from I4 on, is IPv4 first. */
  lemma IpsOrder(res: seq<Res>)
    requires Distinct(res)
    ensures |res| == 0 ==> Ips(res) == []
    ensures |res| == 1 ==> Ips(res) == AddrsOf(res[0])
    ensures |res| == 2 ==> Ips(res) == AddrsOf(res[I4(res)]) + AddrsOf(res[1 - I4(res)])
  {
    if |res| == 1 {
      FamilyOfOne(res, true);
      FamilyOfOne(res, false);
    } else if |res| == 2 {
      IpsOfTwo(res);
    }
  }

  /** The totals loop of query_fin: the number of addresses and the
      position of the last IPv4 result that has some. */
  method Scan(res: seq<Res>) returns (total: nat, i4: nat)
    ensures total == Total(res) && i4 == I4(res)
  {
    total, i4 := 0, 0;
    for i := 0 to |res|
      invariant total == Total(res[..i]) && i4 == I4(res[..i])
    {
      TotalStep(res, i);
      assert res[..i + 1][..i] == res[..i];
      total := total + |res[i].addrs|;
      if |res[i].addrs| != 0 && res[i].is4 {
        i4 := i;
      }
    }
    assert res[..|res|] == res;
  }

  /** The addresses of one result, IPv4 ones written in the mapped form. */
  method CopyAddrs(r: Res) returns (a: seq<seq<byte>>)
    ensures a == AddrsOf(r)
  {
    a := [];
    for k := 0 to |r.addrs|
      invariant a == AddrsOf(r)[..k]
    {
      assert AddrsOf(r)[..k + 1] == AddrsOf(r)[..k] + [AddrsOf(r)[k]];
      a := a + [if r.is4 then Mapped(r.addrs[k]) else r.addrs[k]];
    }
    assert AddrsOf(r)[..|r.addrs|] == AddrsOf(r);
  }

  /** The address list of query_fin, copied in its order: from the last
      IPv4 result, then the other one. */
  method Collect(res: seq<Res>, i4: nat) returns (ips: seq<seq<byte>>)
    requires Distinct(res) && i4 == I4(res)
    ensures ips == Ips(res)
  {
    IpsOrder(res);
    ips := [];
    var i := i4;
    while i != |res|
      invariant i4 < 2 && (i4 == 1 ==> |res| == 2) && i <= |res|
      invariant i == i4 ==> ips == []
      invariant i != i4 ==> i == 1 - i4 && ips == AddrsOf(res[i4])
      decreases if i == i4 then 1 else 0
    {
      var a := CopyAddrs(res[i]);
      ips := ips + a;
      if i == i4 && i4 == 0 {
        i := 1;
      } else if i == i4 {
        i := 0;
      } else {
        break;
      }
    }
  }

  /** The oncomplete calls of query_fin, one per waiter, in order. */
  method NotifyAll(users: seq<User>, result: Result) returns (notes: seq<Note>)
    ensures notes == Notify(users, result)
  {
    notes := [];
    for j := 0 to |users|
      invariant |notes| == j && forall t :: 0 <= t < j ==> notes[t] == Note(users[t], result)
    {
      notes := notes + [Note(users[j], result)];
    }
  }

  /** The cache hook calls of ans_proc, one per stored result. */
  method CacheAll(q: Query) returns (cache: seq<CacheNote>)
    requires |q.res| == |q.ttl|
    ensures cache == CacheNotes(q)
  {
    cache := [];
    for i := 0 to |q.res|
      invariant |cache| == i && forall t :: 0 <= t < i ==> cache[t] == CacheNote(q.res[t], q.name, |q.users|, CacheTtl(q))
    {
      cache := cache + [CacheNote(q.res[i], q.name, |q.users|, CacheTtl(q))];
    }
  }

  /** The query after the response for one family: clear its flag, then
      store the kept records or the error status. */
  method Respond(q: Query, is4: bool, h: Header, ans: seq<Answer>) returns (q2: Query)
    requires |q.res| == |q.ttl|
    ensures q2 == Answered(q, is4, h, ans)
  {
    q2 := if is4 then q.(need4 := false) else q.(need6 := false);
    if h.rcode != NoError {
      if |q2.res| == 0 {
        q2 := q2.(status := h.rcode);
      }
    } else {
      var n := CountRecords(ans, h.answers, is4);
      if n != 0 {
        var addrs, minTtl := CopyRecords(ans, h.answers, is4);
        q2 := q2.(res := q2.res + [Res(is4, addrs)], ttl := q2.ttl + [minTtl], status := NoError);
      } else if |q2.res| == 0 {
        q2 := q2.(status := -1);
      }
    }
  }

  lemma FirstIndexAt(users: seq<User>, u: User, i: nat)
    requires i <= |users| && (i < |users| ==> users[i] == u)
    requires forall j :: 0 <= j < i ==> users[j] != u
    ensures FirstIndex(users, u) == i
  {
  }

  lemma MinKeyIs(k: u32, keys: set<u32>)
    requires IsMinKey(k, keys)
    ensures MinKey(keys) == k
  {
    var m := MinKey(keys);
    assert m <= k && k <= m;
  }

  lemma Regroup(a: seq<Note>, b: seq<Note>, c: seq<Note>, d: seq<Note>)
    requires b + c == d
    ensures a + b + c == a + d
  {
  }

  class Resolver {
    var queries: map<u32, Query>
    var servs: seq<Serv>
    var cur: nat
    const env: Env

    function State(): RState
      reads this
    {
      RState(queries, servs, cur)
    }

    predicate Valid()
      reads this
    {
      Consistent(State(), env)
    }

    /** ffdnscl_new: no servers, no queries. */
    constructor(env: Env)
      ensures State() == RState(map[], [], 0) && this.env == env && Valid()
    {
      queries, servs, cur := map[], [], 0;
      this.env := env;
    }

    /** ffdnscl_serv_add. */
    method AddServer(saddr: seq<byte>) returns (rc: int)
      requires Valid()
      modifies this
      ensures var o := DnsClient.AddServer(old(State()), saddr); State() == o.st && rc == o.rc && Valid()
    {
      ConsistentAddServer(State(), env, saddr);
      var split := IpSplit(saddr);
      if split.None? {
        return -1;
      }
      var (ip, sport) := split.value;
      var port: u16 := DnsPort;
      if |sport| != 0 {
        var p := IpText.ParseU16(sport);
        if p.None? {
          return -1;
        }
        port := p.value;
      }
      if IpText.Ip4ParseResult(ip) != 0 {
        return -1;
      }
      servs := servs + [Serv(IpText.ParseIp4(ip).addr, port, saddr, false, 0)];
      cur := 0;
      rc := 0;
    }

    /** query_send1 for query q on server i. */
    method SendOne(q: Query, i: nat, link: Link) returns (ok: bool)
      requires i < |servs|
      modifies this
      ensures var r := Send1(q, old(servs[i]), link);
        ok == r.ok && servs == old(servs)[i := r.serv] && queries == old(queries) && cur == old(cur)
    {
      var s := servs[i];
      ok := false;
      if !s.connected {
        if !link.init || !link.connect {
          return;
        }
        s := s.(connected := true);
      }
      if q.need6 {
        if !link.send6 {
          servs := servs[i := s.(connected := false)];
          return;
        }
        s := s.(nqueries := s.nqueries + 1);
      }
      if q.need4 {
        if !link.send4 {
          servs := servs[i := s.(connected := false)];
          return;
        }
        s := s.(nqueries := s.nqueries + 1);
      }
      servs := servs[i := s];
      ok := true;
    }

    /** One attempt of query_send: spend a try, take the next server and
        send the query's requests to it. */
    method Attempt(key: u32, net: nat -> Link, k: nat) returns (ok: bool)
      requires key in queries && queries[key].triesLeft > 0 && cur < |servs|
      modifies this
      ensures key in queries && queries[key].res == old(queries[key].res)
      ensures queries[key].triesLeft == old(queries[key].triesLeft) - 1
      ensures queries[key].triesLeft > 0 ==> cur < |servs|
      ensures ok ==> Send(old(State()), key, net, k) == Out(State(), 0, [], [], k + 1)
      ensures !ok ==> Send(old(State()), key, net, k) == Send(State(), key, net, k + 1)
    {
      var q := queries[key];
      q := q.(triesLeft := q.triesLeft - 1);
      queries := queries[key := q];
      var i := cur;
      cur := if cur + 1 < |servs| then cur + 1 else 0;
      ok := SendOne(q, i, net(k));
    }

    /** query_send: attempts until one succeeds or the tries run out. */
    method SendLoop(key: u32, net: nat -> Link) returns (notes: seq<Note>, sent: nat)
      requires Valid() && key in queries
      modifies this
      ensures var o := Send(old(State()), key, net, 0);
        State() == o.st && notes == o.notes && sent == o.sent && Valid()
    {
      ConsistentSend(State(), env, key, net, 0);
      ghost var goal := Send(State(), key, net, 0);
      ghost var res := queries[key].res;
      var k := 0;
      while true
        invariant key in queries && queries[key].res == res && Distinct(res)
        invariant queries[key].triesLeft > 0 ==> cur < |servs|
        invariant Send(State(), key, net, k) == goal
        decreases queries[key].triesLeft
      {
        if queries[key].triesLeft == 0 {
          notes := Finish(key, -1, None);
          sent := k;
          return;
        }
        var ok := Attempt(key, net, k);
        k := k + 1;
        if ok {
          notes, sent := [], k;
          return;
        }
      }
    }

    /** query_fin: remove the query, build the result, call every waiter. */
    method Finish(key: u32, status: int, serv: Option<nat>) returns (notes: seq<Note>)
      requires key in queries && Distinct(queries[key].res)
      requires serv.Some? ==> serv.value < |servs|
      modifies this
      ensures var o := Fin(old(State()), key, status, serv); State() == o.st && notes == o.notes
    {
      var q := queries[key];
      queries := queries - {key};
      var total, i4 := Scan(q.res);
      var ips := Collect(q.res, i4);
      IpsTotal(q.res);
      assert |ips| == total;
      var saddr := if serv.Some? then servs[serv.value].saddr else [];
      notes := NotifyAll(q.users, Result(q.name, status, ips, saddr));
    }

    /** query_rmuser: walk the waiters for the pair and swap-remove it. */
    method RemoveUser(name: Name, u: User) returns (rc: int)
      modifies this
      ensures var o := Cancel(old(State()), env, name, u); State() == o.st && rc == o.rc
    {
      var key := env.icrc(name);
      if key !in queries {
        return 1;
      }
      var q := queries[key];
      if q.name != name {
        return 1;
      }
      var i := 0;
      while i < |q.users|
        invariant i <= |q.users| && forall j :: 0 <= j < i ==> q.users[j] != u
      {
        if q.users[i] == u {
          FirstIndexAt(q.users, u, i);
          SwapRemoveAt(q.users, i);
          var us := q.users[i := q.users[|q.users| - 1]][..|q.users| - 1];
          assert us == SwapRemove(q.users, i);
          queries := queries[key := q.(users := us)];
          return 0;
        }
        i := i + 1;
      }
      FirstIndexAt(q.users, u, i);
      return 1;
    }

    /** ffdnscl_resolve; flags bit 0 makes it a cancel. */
    method Resolve(name: Name, u: User, flags: nat, txid4: u16, txid6: u16, net: nat -> Link)
      returns (rc: int, notes: seq<Note>, sent: nat)
      requires Valid() && CanSend(State(), env)
      modifies this
      ensures var o := DnsClient.Resolve(old(State()), env, name, u, flags, txid4, txid6, net);
        State() == o.st && rc == o.rc && notes == o.notes && sent == o.sent && Valid()
    {
      ConsistentResolve(State(), env, name, u, flags, txid4, txid6, net);
      if flags % 2 == CancelFlag {
        rc := RemoveUser(name, u);
        notes, sent := [], 0;
        return;
      }
      rc, sent := 0, 0;
      var key := env.icrc(name);
      if key in queries {
        var q := queries[key];
        if q.name != name {
          notes := [Note(u, Failed(name))];
          return;
        }
        queries := queries[key := q.(users := q.users + [u])];
        notes := [];
        return;
      }
      var b4 := env.prep(txid4, name, TypeA);
      if |b4| == 0 {
        notes := [Note(u, Failed(name))];
        return;
      }
      notes, sent := Start(name, u, txid4, txid6, b4, net);
    }

    /** The new-query path of ffdnscl_resolve: prepare the AAAA request
        when IPv6 is enabled, store the query and send it. */
    method Start(name: Name, u: User, txid4: u16, txid6: u16, b4: seq<byte>, net: nat -> Link)
      returns (notes: seq<Note>, sent: nat)
      requires Valid() && CanSend(State(), env) && env.icrc(name) !in queries && |b4| > 0
      modifies this
      ensures var o := Send(old(State()).(queries := old(queries)[env.icrc(name) := NewQuery(env, name, u, txid4, txid6, b4)]),
                            env.icrc(name), net, 0);
        State() == o.st && notes == o.notes && sent == o.sent && o.rc == 0
    {
      var t6: u16, b6: seq<byte> := 0, [];
      if env.enableIpv6 {
        t6 := txid6;
        b6 := env.prep(txid6, name, TypeAaaa);
      }
      var q := Query(name, env.maxTries, [], [], 0, [u], txid4, t6, true, env.enableIpv6, b4, b6);
      assert q == NewQuery(env, name, u, txid4, txid6, b4);
      ConsistentInsert(State(), env, env.icrc(name), q);
      queries := queries[env.icrc(name) := q];
      SendBudget(State(), env.icrc(name), net, 0);
      notes, sent := SendLoop(env.icrc(name), net);
    }

    /** query_onexpire. */
    method Expire(key: u32, net: nat -> Link) returns (notes: seq<Note>, sent: nat)
      requires Valid() && key in queries
      modifies this
      ensures var o := DnsClient.Expire(old(State()), key, net);
        State() == o.st && notes == o.notes && sent == o.sent && Valid()
    {
      ConsistentExpire(State(), env, key, net);
      if queries[key].triesLeft == 0 {
        notes := Finish(key, -1, None);
        sent := 0;
        return;
      }
      notes, sent := SendLoop(key, net);
    }

    /** ans_proc with ans_nrecs and ans_proc_resp: a response from server serv. */
    method Receive(serv: nat, m: Msg) returns (cache: seq<CacheNote>, notes: seq<Note>)
      requires Valid() && serv < |servs|
      modifies this
      ensures var o := DnsClient.Receive(old(State()), env, serv, m);
        State() == o.st && cache == o.cache && notes == o.notes && Valid()
    {
      ConsistentReceive(State(), env, serv, m);
      cache, notes := [], [];
      var found := FindQuery(State(), env, m);
      if found.None? {
        return;
      }
      var key := found.value;
      var q := queries[key];
      var id := m.header.value.id;
      var is4: bool;
      if q.need4 && id == q.txid4 {
        is4 := true;
      } else if q.need6 && id == q.txid6 {
        is4 := false;
      } else {
        return;
      }
      ConsistentAnswered(q, is4, m.header.value, m.answers, env.maxTries);
      cache, notes := Take(key, is4, m, serv);
    }

    /** ans_proc once the query and the family are known. */
    method Take(key: u32, is4: bool, m: Msg, serv: nat) returns (cache: seq<CacheNote>, notes: seq<Note>)
      requires key in queries && m.header.Some? && serv < |servs|
      requires |queries[key].res| == |queries[key].ttl|
      requires Distinct(Answered(queries[key], is4, m.header.value, m.answers).res)
      modifies this
      ensures var o := Got(old(State()), key, is4, m, serv);
        State() == o.st && cache == o.cache && notes == o.notes
    {
      var q2 := Respond(queries[key], is4, m.header.value, m.answers);
      queries := queries[key := q2];
      if q2.need4 || q2.need6 {
        return [], [];
      }
      cache := CacheAll(q2);
      notes := Finish(key, q2.status, Some(serv));
    }

    /** One step of the teardown: finish the query with the least key. */
    method FinishFirst() returns (more: seq<Note>)
      requires queries != map[] && forall k :: k in queries ==> Distinct(queries[k].res)
      modifies this
      ensures queries == old(queries) - {MinKey(old(queries).Keys)}
      ensures more + Drain(queries) == Drain(old(queries))
    {
      MinKeyExists(queries.Keys);
      var k :| IsMinKey(k, queries.Keys);
      MinKeyIs(k, queries.Keys);
      more := Finish(k, -1, None);
    }

    /** ffdnscl_free, finishing every pending query with -1 in key order
        before the servers are released. */
    method Free() returns (notes: seq<Note>)
      requires Valid()
      modifies this
      ensures notes == Drain(old(queries)) && queries == map[] && servs == [] && cur == 0
    {
      notes := [];
      while queries != map[]
        invariant forall k :: k in queries ==> Distinct(queries[k].res)
        invariant notes + Drain(queries) == Drain(old(queries))
        decreases |queries|
      {
        ghost var before := queries;
        var more := FinishFirst();
        Regroup(notes, more, Drain(queries), Drain(before));
        notes := notes + more;
      }
      servs, cur := [], 0;
    }
  }
}
