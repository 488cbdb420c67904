/** The session table of the load balancer: the first packet of a session picks a backend by the
    lookup table and stores a translation for each direction; every packet is rewritten by the
    translation stored for its session. */
module Sessions {
  import opened Options
  import opened Checksum
  import opened ElementMap
  import MaglevRow
  import MaglevTable

  const LOOKUP_SIZE := MaglevRow.LOOKUP_SIZE

  type U32 = x: nat | x < TWO_32
  type U16 = x: nat | x < TWO_16

  datatype SessionId = SessionId(saddr: U32, daddr: U32, sport: U16, dport: U16, proto: nat)
  datatype ServiceId = ServiceId(vaddr: U32, vport: U16, proto: nat)
  datatype BackendId = BackendId(service: ServiceId, index: int)
  datatype Backend = Backend(addr: U32, port: U16)
  datatype Direction = ToClient | ToBackend
  datatype Translation = Translation(dir: Direction, addr: U32, port: U16)

  /** The part of a packet that the balancer reads and rewrites. */
  datatype Packet = Packet(sid: SessionId, ipCheck: U16, l4Check: U16)

  datatype Config = Config(
    services: set<ServiceId>,
    tables: map<ServiceId, seq<int>>,
    backends: map<BackendId, Backend>,
    mix: SessionId -> nat)
  {
    /** Every service has its lookup table, which the packet path takes for granted. */
    ghost predicate Ok() {
      forall s :: s in services ==> s in tables && |tables[s]| == LOOKUP_SIZE
    }
  }

  function Destination(sid: SessionId): ServiceId {
    ServiceId(sid.daddr, sid.dport, sid.proto)
  }

  function Source(sid: SessionId): ServiceId {
    ServiceId(sid.saddr, sid.sport, sid.proto)
  }

  /** The session of the replies that a backend sends for a session. */
  function Backward(sid: SessionId, b: Backend): SessionId {
    SessionId(b.addr, sid.saddr, b.port, sid.sport, sid.proto)
  }

  /** The backend of a new session: none when its destination is no service, or when the table
      names a backend that is not there. */
  function Chosen(cfg: Config, sid: SessionId): Option<Backend>
    requires cfg.Ok()
  {
    var s := Destination(sid);
    if s !in cfg.services then None
    else
      var id := BackendId(s, cfg.tables[s][cfg.mix(sid) % LOOKUP_SIZE]);
      if id in cfg.backends then Some(cfg.backends[id]) else None
  }

  /** The packet with one endpoint replaced and both checksums updated. */
  function Rewrite(p: Packet, t: Translation): Packet {
    var sid := p.sid;
    var from, port := if t.dir == ToBackend then sid.daddr else sid.saddr,
                      if t.dir == ToBackend then sid.dport else sid.sport;
    Packet(
      if t.dir == ToBackend then sid.(daddr := t.addr, dport := t.port) else sid.(saddr := t.addr, sport := t.port),
      UpdateAddress(p.ipCheck, from, t.addr),
      UpdateAddressAndPort(p.l4Check, from, t.addr, port, t.port))
  }

  type Table = map<SessionId, Translation>

  function Opened(t: Table, sid: SessionId, b: Backend): Table {
    var t1 := t[sid := Translation(ToBackend, b.addr, b.port)];
    var back := Backward(sid, b);
    if back in t1 then t1 else t1[back := Translation(ToClient, sid.daddr, sid.dport)]
  }

  /** The table after a packet. */
  function Next(cfg: Config, t: Table, sid: SessionId): Table
    requires cfg.Ok()
  {
    if sid in t || Chosen(cfg, sid).None? then t else Opened(t, sid, Chosen(cfg, sid).value)
  }

  /** What happens to a packet: rewritten by its session, or dropped. */
  function Sent(cfg: Config, t: Table, p: Packet): Option<Packet>
    requires cfg.Ok()
  {
    var t' := Next(cfg, t, p.sid);
    if p.sid in t' then Some(Rewrite(p, t'[p.sid])) else None
  }

  // ---------------------------------------------------------------- the packet path

  class Balancer {
    const cfg: Config
    const sessions: ElementMap.Table<SessionId, Translation>

    ghost predicate Valid()
      reads this, sessions, sessions.buckets
    {
      cfg.Ok() && sessions.Valid()
    }

    constructor (cfg: Config, hash: SessionId -> nat, maxSessions: nat)
      requires cfg.Ok() && 0 < maxSessions
      ensures Valid() && this.cfg == cfg && sessions.contents == map[]
      ensures fresh(sessions) && fresh(sessions.buckets)
    {
      this.cfg := cfg;
      sessions := new ElementMap.Table<SessionId, Translation>(hash, maxSessions);
    }

    method Handle(p: Packet) returns (out: Option<Packet>)
      requires Valid()
      modifies sessions, sessions.buckets
      ensures Valid()
      ensures out == Sent(cfg, old(sessions.contents), p)
      ensures sessions.contents == Next(cfg, old(sessions.contents), p.sid)
    {
      var known := sessions.Lookup(p.sid);
      if known.Some? {
        return Some(Rewrite(p, known.value));
      }
      var service := Destination(p.sid);
      if service !in cfg.services {
        return None;
      }
      var id := BackendId(service, cfg.tables[service][cfg.mix(p.sid) % LOOKUP_SIZE]);
      if id !in cfg.backends {
        return None;
      }
      var b := cfg.backends[id];
      var forward := Translation(ToBackend, b.addr, b.port);
      var stored := sessions.Insert(p.sid, forward);
      if stored {
        var _ := sessions.Insert(Backward(p.sid, b), Translation(ToClient, service.vaddr, service.vport));
      }
      return Some(Rewrite(p, forward));
    }
  }

  // ---------------------------------------------------------------- sticky sessions

  /** The table after a run of packets. */
  function After(cfg: Config, packets: seq<Packet>): Table
    requires cfg.Ok()
  {
    if packets == [] then map[]
    else Next(cfg, After(cfg, packets[..|packets| - 1]), packets[|packets| - 1].sid)
  }

  lemma AfterOneMore(cfg: Config, packets: seq<Packet>, n: nat)
    requires cfg.Ok() && n < |packets|
    ensures After(cfg, packets[..n + 1]) == Next(cfg, After(cfg, packets[..n]), packets[n].sid)
  {
    assert packets[..n + 1][..n] == packets[..n];
  }

  ghost predicate Extends(t: Table, t': Table) {
    forall sid :: sid in t ==> sid in t' && t'[sid] == t[sid]
  }

  lemma NextExtends(cfg: Config, t: Table, sid: SessionId)
    requires cfg.Ok()
    ensures Extends(t, Next(cfg, t, sid))
  {
  }

  /** Over a run the table only gains sessions and never changes one. */
  lemma {:induction false} RunExtends(cfg: Config, packets: seq<Packet>, i: nat)
    requires cfg.Ok() && i <= |packets|
    ensures Extends(After(cfg, packets[..i]), After(cfg, packets))
    decreases |packets|
  {
    if i == |packets| {
      assert packets[..i] == packets;
    } else {
      var last := |packets| - 1;
      RunExtends(cfg, packets[..last], i);
      assert packets[..last][..i] == packets[..i];
      NextExtends(cfg, After(cfg, packets[..last]), packets[last].sid);
    }
  }

  /** A packet that was sent on fixes what is done to every later packet of its session. */
  lemma Sticky(cfg: Config, packets: seq<Packet>, i: nat, j: nat)
    requires cfg.Ok() && i < j < |packets| && packets[i].sid == packets[j].sid
    ensures Sent(cfg, After(cfg, packets[..i]), packets[i]).Some? ==>
              var t := After(cfg, packets[..i + 1]);
              && packets[i].sid in t
              && Sent(cfg, After(cfg, packets[..i]), packets[i]) == Some(Rewrite(packets[i], t[packets[i].sid]))
              && Sent(cfg, After(cfg, packets[..j]), packets[j]) == Some(Rewrite(packets[j], t[packets[i].sid]))
  {
    AfterOneMore(cfg, packets, i);
    RunExtends(cfg, packets[..j], i + 1);
    assert packets[..j][..i + 1] == packets[..i + 1];
    NextExtends(cfg, After(cfg, packets[..j]), packets[j].sid);
  }

  // ---------------------------------------------------------------- replies

  /** No client is given the same backend endpoint by two services. */
  ghost predicate NoClash(cfg: Config)
    requires cfg.Ok()
  {
    forall a, b :: Clash(cfg, a, b) ==> Destination(a) == Destination(b)
  }

  ghost predicate Clash(cfg: Config, a: SessionId, b: SessionId)
    requires cfg.Ok()
  {
    && Source(a) == Source(b) && Source(a) !in cfg.services
    && Chosen(cfg, a).Some? && Chosen(cfg, a) == Chosen(cfg, b)
  }

  /** No packet goes from a virtual endpoint to a virtual endpoint. */
  ghost predicate Ordinary(cfg: Config, sid: SessionId) {
    Source(sid) in cfg.services ==> Destination(sid) !in cfg.services
  }

  ghost predicate ForwardOk(cfg: Config, t: Table, sid: SessionId)
    requires cfg.Ok()
  {
    && Source(sid) !in cfg.services
    && Chosen(cfg, sid).Some?
    && var b := Chosen(cfg, sid).value;
       && sid in t && t[sid] == Translation(ToBackend, b.addr, b.port)
       && Backward(sid, b) in t && t[Backward(sid, b)] == Translation(ToClient, sid.daddr, sid.dport)
  }

  ghost predicate BackwardOk(cfg: Config, t: Table, sid: SessionId)
    requires cfg.Ok()
  {
    exists f :: ForwardOk(cfg, t, f) && sid == Backward(f, Chosen(cfg, f).value)
  }

  /** Sessions to a service have the translation of the chosen backend, and their replies that of
      the service; there are no others. */
  ghost predicate Paired(cfg: Config, t: Table)
    requires cfg.Ok()
  {
    forall sid :: sid in t ==>
      if Destination(sid) in cfg.services then ForwardOk(cfg, t, sid) else BackwardOk(cfg, t, sid)
  }

  lemma ForwardExtends(cfg: Config, t: Table, t': Table, sid: SessionId)
    requires cfg.Ok() && Extends(t, t') && ForwardOk(cfg, t, sid)
    ensures ForwardOk(cfg, t', sid)
  {
  }

  /** With no clash the reply session of a new session is new. */
  lemma BackwardIsNew(cfg: Config, t: Table, sid: SessionId)
    requires cfg.Ok() && NoClash(cfg) && Paired(cfg, t) && Ordinary(cfg, sid)
    requires sid !in t && Chosen(cfg, sid).Some?
    ensures Backward(sid, Chosen(cfg, sid).value) !in t && Backward(sid, Chosen(cfg, sid).value) != sid
  {
  }

  lemma PairedStep(cfg: Config, t: Table, sid: SessionId)
    requires cfg.Ok() && NoClash(cfg) && Paired(cfg, t) && Ordinary(cfg, sid)
    ensures Paired(cfg, Next(cfg, t, sid))
  {
    if sid !in t && Chosen(cfg, sid).Some? {
      var t' := Next(cfg, t, sid);
      var back := Backward(sid, Chosen(cfg, sid).value);
      BackwardIsNew(cfg, t, sid);
      NextExtends(cfg, t, sid);
      assert Destination(back) == Source(sid);
      assert ForwardOk(cfg, t', sid);
      forall x | x in t'
        ensures if Destination(x) in cfg.services then ForwardOk(cfg, t', x) else BackwardOk(cfg, t', x)
      {
        if x in t && Destination(x) in cfg.services {
          ForwardExtends(cfg, t, t', x);
        } else if x in t {
          var f :| ForwardOk(cfg, t, f) && x == Backward(f, Chosen(cfg, f).value);
          ForwardExtends(cfg, t, t', f);
        }
      }
    }
  }

  ghost predicate OrdinaryRun(cfg: Config, packets: seq<Packet>) {
    forall i :: 0 <= i < |packets| ==> Ordinary(cfg, packets[i].sid)
  }

  lemma {:induction false} RunPaired(cfg: Config, packets: seq<Packet>)
    requires cfg.Ok() && NoClash(cfg) && OrdinaryRun(cfg, packets)
    ensures Paired(cfg, After(cfg, packets))
  {
    if packets != [] {
      var last := |packets| - 1;
      RunPaired(cfg, packets[..last]);
      PairedStep(cfg, After(cfg, packets[..last]), packets[last].sid);
    }
  }

  function Mirror(sid: SessionId): SessionId {
    SessionId(sid.daddr, sid.saddr, sid.dport, sid.sport, sid.proto)
  }

  /** Packet `j` answers what the balancer made of packet `i`, which was for a service. */
  ghost predicate Answers(cfg: Config, packets: seq<Packet>, i: nat, j: nat)
    requires cfg.Ok() && i < j < |packets|
  {
    && Destination(packets[i].sid) in cfg.services
    && var sent := Sent(cfg, After(cfg, packets[..i]), packets[i]);
       sent.Some? && packets[j].sid == Mirror(sent.value.sid)
  }

  /** Packet `j` is sent on as an answer to packet `i` itself. */
  ghost predicate Returned(cfg: Config, packets: seq<Packet>, i: nat, j: nat)
    requires cfg.Ok() && i < j < |packets|
  {
    var sent := Sent(cfg, After(cfg, packets[..j]), packets[j]);
    sent.Some? && sent.value.sid == Mirror(packets[i].sid)
  }

  lemma ReplyReturns(cfg: Config, packets: seq<Packet>, i: nat, j: nat)
    requires cfg.Ok() && i < j < |packets|
    ensures NoClash(cfg) && OrdinaryRun(cfg, packets) && Answers(cfg, packets, i, j) ==> Returned(cfg, packets, i, j)
  {
    if NoClash(cfg) && OrdinaryRun(cfg, packets) && Answers(cfg, packets, i, j) {
      var t := After(cfg, packets[..i + 1]);
      AfterOneMore(cfg, packets, i);
      RunPaired(cfg, packets[..i + 1]);
      assert ForwardOk(cfg, t, packets[i].sid);
      RunExtends(cfg, packets[..j], i + 1);
      assert packets[..j][..i + 1] == packets[..i + 1];
      assert packets[j].sid == Backward(packets[i].sid, Chosen(cfg, packets[i].sid).value);
    }
  }

  ghost predicate RepliesReturn(cfg: Config, packets: seq<Packet>)
    requires cfg.Ok()
  {
    forall i, j :: 0 <= i < j < |packets| && Answers(cfg, packets, i, j) ==> Returned(cfg, packets, i, j)
  }

  /** Two services that share a backend mix up the replies of a client that uses both. */
  lemma ClashMixesReplies(cfg: Config, a: SessionId, b: SessionId, packets: seq<Packet>)
    requires cfg.Ok() && Clash(cfg, a, b) && Destination(a) != Destination(b)
    requires |packets| == 3 && packets[0].sid == a && packets[1].sid == b
    requires packets[2].sid == Backward(a, Chosen(cfg, a).value)
    ensures OrdinaryRun(cfg, packets) && Answers(cfg, packets, 1, 2) && !Returned(cfg, packets, 1, 2)
  {
    var bk := Chosen(cfg, a).value;
    var back := Backward(a, bk);
    assert Destination(back) == Source(a) && back == Backward(b, bk);
    AfterOneMore(cfg, packets, 0);
    AfterOneMore(cfg, packets, 1);
    var t1 := After(cfg, packets[..1]);
    assert t1 == Opened(map[], a, bk);
    var t2 := After(cfg, packets[..2]);
    assert t2 == Opened(t1, b, bk);
    assert t2[back] == Translation(ToClient, a.daddr, a.dport);
  }

  /** Replies come back under the address the client used, over every run, exactly when no two
      services share a backend for a client. */
  lemma RepliesReturnIff(cfg: Config)
    requires cfg.Ok()
    ensures NoClash(cfg) <==> forall packets :: OrdinaryRun(cfg, packets) ==> RepliesReturn(cfg, packets)
  {
    if NoClash(cfg) {
      forall packets | OrdinaryRun(cfg, packets)
        ensures RepliesReturn(cfg, packets)
      {
        forall i, j | 0 <= i < j < |packets| && Answers(cfg, packets, i, j)
          ensures Returned(cfg, packets, i, j)
        {
          ReplyReturns(cfg, packets, i, j);
        }
      }
    } else {
      var a, b :| Clash(cfg, a, b) && Destination(a) != Destination(b);
      var packets := [Packet(a, 0, 0), Packet(b, 0, 0), Packet(Backward(a, Chosen(cfg, a).value), 0, 0)];
      ClashMixesReplies(cfg, a, b, packets);
      assert !RepliesReturn(cfg, packets);
    }
  }

  /** With one service there is no clash, and neither when services have backends of their own. */
  lemma OwnBackends(cfg: Config)
    requires cfg.Ok()
    requires forall x, y ::
               (&& x in cfg.backends && y in cfg.backends && cfg.backends[x] == cfg.backends[y]
                && x.service in cfg.services && y.service in cfg.services && x.service.proto == y.service.proto)
               ==> x.service == y.service
    ensures NoClash(cfg)
  {
  }

  /** A filled lookup table whose backends are all known drops no packet for its service. */
  lemma FilledTableDropsNothing(cfg: Config, s: ServiceId, n: nat, t: Table, p: Packet)
    requires cfg.Ok() && s in cfg.services && Destination(p.sid) == s
    requires MaglevTable.Assigned(cfg.tables[s], n)
    requires forall i :: 0 <= i < n ==> BackendId(s, i) in cfg.backends
    ensures Sent(cfg, t, p).Some?
  {
  }

  /** Sending a packet on keeps the header checksum right. */
  lemma RewriteKeepsChecksum(p: Packet, t: Translation, words: seq<nat>, i: nat)
    requires WordsOk(words) && i + 1 < |words| && Verifies(words, p.ipCheck)
    requires Wide(words, i) == if t.dir == ToBackend then p.sid.daddr else p.sid.saddr
    requires NotAllZero(SetWide(words, i, t.addr))
    ensures Verifies(SetWide(words, i, t.addr), Rewrite(p, t).ipCheck)
  {
    AddressUpdate(words, p.ipCheck, i, t.addr);
    ChecksumVerifies(SetWide(words, i, t.addr));
  }

  /** The same for the transport checksum, whose words hold the address at `i` and the port at `q`. */
  lemma RewriteKeepsTransportChecksum(p: Packet, t: Translation, words: seq<nat>, i: nat, q: nat)
    requires WordsOk(words) && i + 1 < |words| && q < |words| && q != i && q != i + 1
    requires Verifies(words, p.l4Check)
    requires Wide(words, i) == if t.dir == ToBackend then p.sid.daddr else p.sid.saddr
    requires words[q] == if t.dir == ToBackend then p.sid.dport else p.sid.sport
    requires NotAllZero(SetWide(words, i, t.addr)[q := t.port])
    ensures Verifies(SetWide(words, i, t.addr)[q := t.port], Rewrite(p, t).l4Check)
  {
    AddressAndPortUpdate(words, p.l4Check, i, t.addr, q, t.port);
    ChecksumVerifies(SetWide(words, i, t.addr)[q := t.port]);
  }
}
