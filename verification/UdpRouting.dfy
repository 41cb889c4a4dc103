/**
 That the public relay server does forward: what a packet from a permitted peer
 causes, and that the route it leaves behind is used until it expires.
 */
module UdpRouting {
  import opened Bytes
  import opened UdpServer
  import opened UdpForwarding

  /** Datagrams from this address pass the login check. */
  predicate Permitted(s: Server, auth: bool, rinfo: Addr)
    requires Refs(s)
  {
    var i := Find(s.registry, rinfo);
    !auth || (i < |s.registry| && s.peers[s.registry[i].peer].user.Some?)
  }

  /** The kind and payload of a packet event. */
  function KindOf(e: Event): int
    requires PacketEvent(e)
  {
    e.msg[0] % 128
  }

  function PayloadOf(e: Event): seq<byte>
    requires PacketEvent(e)
  {
    e.msg[1..]
  }

  function Source(e: Event): Ip
    requires PacketEvent(e)
  {
    SrcOf(KindOf(e), PayloadOf(e))
  }

  function Destination(e: Event): Ip
    requires PacketEvent(e)
  {
    DstOf(KindOf(e), PayloadOf(e))
  }

  /** The address a datagram comes from: bytes 12 to 15 of an IPv4 header, or the first four of a fragment header. */
  function Claimed(msg: seq<byte>): Option<Ip> {
    if |msg| <= 21 then None
    else if msg[0] % 128 == 1 then Some(msg[13..17])
    else if msg[0] % 128 == 3 then Some(msg[1..5])
    else None
  }

  /** The address it goes to: the four bytes behind those. */
  function Wanted(msg: seq<byte>): Option<Ip> {
    if |msg| <= 21 then None
    else if msg[0] % 128 == 1 then Some(msg[17..21])
    else if msg[0] % 128 == 3 then Some(msg[5..9])
    else None
  }

  lemma EventBytes(e: Event)
    requires e.Datagram?
    ensures PacketEvent(e) <==> Claimed(e.msg).Some?
    ensures PacketEvent(e) ==> Claimed(e.msg) == Some(Source(e)) && Wanted(e.msg) == Some(Destination(e))
  {
    if e.msg != [] {
      var payload := e.msg[1..];
      if |payload| > 20 {
        assert payload[12..16] == e.msg[13..17] && payload[16..20] == e.msg[17..21];
        assert payload[0..4] == e.msg[1..5] && payload[4..8] == e.msg[5..9];
      }
    }
  }

  /** A permitted packet is handed to onPacket for the peer of its address. */
  lemma PermittedStep(s: Server, auth: bool, e: Event) returns (s1: Server, p: nat)
    requires Refs(s) && Keyed(s) && PacketEvent(e) && Permitted(s, auth, e.rinfo)
    ensures Refs(s1) && Keyed(s1) && p < |s1.peers| && s1.peers[p].rinfo == e.rinfo
    ensures s1 == Get(s, e.rinfo, e.now).0 && p == Get(s, e.rinfo, e.now).1
    ensures s1.ipCache == s.ipCache && s1.sent == s.sent && s.peers <= s1.peers
    ensures forall entry <- s.registry ::
              exists other <- s1.registry :: other.key == entry.key && other.peer == entry.peer
    ensures Step(s, auth, e) == OnPacket(s1, p, KindOf(e), PayloadOf(e), e.later)
  {
    GetRefs(s, e.rinfo, e.now);
    GetKeyed(s, e.rinfo, e.now);
    var got := Get(s, e.rinfo, e.now);
    s1, p := got.0, got.1;
    var i := Find(s.registry, e.rinfo);
    forall entry <- s.registry
      ensures exists other <- s1.registry :: other.key == entry.key && other.peer == entry.peer
    {
      var k :| 0 <= k < |s.registry| && s.registry[k] == entry;
      assert s1.registry[k].key == entry.key && s1.registry[k].peer == entry.peer;
    }
  }

  /** The packet has been sent to the one peer its destination is a route to, or else to every other address. */
  predicate Delivered(before: seq<Frame>, s: Server, p: nat, rinfo: Addr, kind: int, payload: seq<byte>, dst: Ip) {
    if dst in s.ipCache then
      var to := s.ipCache[dst].peer;
      to < |s.peers| && s.sent == before + [Unicast(p, to, s.peers[to].rinfo, kind, payload)]
    else
      && before <= s.sent
      && forall entry <- s.registry :: entry.key != rinfo ==>
           Flood(p, entry.peer, entry.key, kind, payload) in s.sent[|before|..]
  }

  lemma OnPacketDelivers(s: Server, p: nat, kind: int, payload: seq<byte>, now: int)
    requires Refs(s) && Keyed(s) && p < |s.peers| && IsPacket(kind, payload)
    ensures var s' := OnPacket(s, p, kind, payload, now);
            && s'.peers == s.peers && s'.registry == s.registry
            && SrcOf(kind, payload) in s'.ipCache && s'.ipCache[SrcOf(kind, payload)] == CacheItem(p, now + TIMEOUT)
            && Delivered(s.sent, s', p, s.peers[p].rinfo, kind, payload, DstOf(kind, payload))
  {
    var s' := OnPacket(s, p, kind, payload, now);
    var s1 := s.(ipCache := s'.ipCache);
    if DstOf(kind, payload) !in s'.ipCache {
      FloodReaches(s1, s.registry, p, kind, payload);
      assert s'.sent[|s.sent|..] == FloodFrames(s1, s.registry, p, kind, payload);
    }
  }

  /**
   A packet from a permitted peer makes its source address a route to that peer.
   It goes to the one peer its destination is a route to, or else to every
   registered address but the sender's. Source and destination are those in the
   bytes of the datagram.
   */
  lemma PacketIsForwarded(s: Server, auth: bool, e: Event) returns (p: nat)
    requires Inv(s, auth) && Keyed(s) && PacketEvent(e) && Permitted(s, auth, e.rinfo)
    ensures Claimed(e.msg) == Some(Source(e)) && Wanted(e.msg) == Some(Destination(e))
    ensures var s' := Step(s, auth, e);
            && p < |s'.peers| && s'.peers[p].rinfo == e.rinfo
            && Source(e) in s'.ipCache && s'.ipCache[Source(e)] == CacheItem(p, e.later + TIMEOUT)
            && Delivered(s.sent, s', p, e.rinfo, KindOf(e), PayloadOf(e), Destination(e))
            && forall entry <- s.registry :: exists other <- s'.registry ::
                 other.key == entry.key && other.peer == entry.peer
  {
    var s1: Server;
    EventBytes(e);
    s1, p := PermittedStep(s, auth, e);
    hide Step, PacketEvent, FillsInOrder, Get, Delivered, OnPacket, Keyed, Claimed, Wanted;
    OnPacketDelivers(s1, p, KindOf(e), PayloadOf(e), e.later);
  }

  /** A flood does not ask for a login: it reaches the registered peers without a user as well. */
  lemma StrangersReceiveFloods(s: Server, auth: bool, e: Event, entry: Registered) returns (p: nat)
    requires Inv(s, auth) && Keyed(s) && PacketEvent(e) && Permitted(s, auth, e.rinfo)
    requires entry in s.registry && entry.key != e.rinfo && s.peers[entry.peer].user.None?
    requires Destination(e) !in s.ipCache && Destination(e) != Source(e)
    ensures Flood(p, entry.peer, entry.key, KindOf(e), PayloadOf(e)) in Step(s, auth, e).sent
  {
    p := PacketIsForwarded(s, auth, e);
    CacheAfter(s, auth, e);
    hide Step, Inv, PacketEvent;
    var s' := Step(s, auth, e);
    var other :| other in s'.registry && other.key == entry.key && other.peer == entry.peer;
    assert Flood(p, other.peer, other.key, KindOf(e), PayloadOf(e)) in s'.sent[|s.sent|..];
  }

  lemma CacheAfter(s: Server, auth: bool, e: Event)
    requires Refs(s) && Keyed(s) && PacketEvent(e) && Permitted(s, auth, e.rinfo)
    ensures forall ip <- Step(s, auth, e).ipCache :: ip in s.ipCache || ip == Source(e)
  {
    var s1, p := PermittedStep(s, auth, e);
    hide Step, PacketEvent, Get;
  }

  /** This event does not touch the route of an address that expires at expireAt. */
  predicate Spares(e: Event, ip: Ip, expireAt: int) {
    && (PacketEvent(e) ==> Source(e) != ip)
    && (e.Housekeeping? ==> e.later <= expireAt)
  }

  lemma RouteKept(s: Server, auth: bool, e: Event, ip: Ip)
    requires Inv(s, auth) && ip in s.ipCache && Spares(e, ip, s.ipCache[ip].expireAt)
    ensures var s' := Step(s, auth, e); ip in s'.ipCache && s'.ipCache[ip] == s.ipCache[ip]
  {
    if e.Datagram? {
      MessageKeepsRoute(s, auth, e, ip);
      hide OnMessage;
    }
  }

  lemma PacketKeepsRoute(s: Server, p: nat, kind: int, payload: seq<byte>, now: int, ip: Ip)
    requires Refs(s) && p < |s.peers| && ip in s.ipCache && (IsPacket(kind, payload) ==> SrcOf(kind, payload) != ip)
    ensures var s' := OnPacket(s, p, kind, payload, now); ip in s'.ipCache && s'.ipCache[ip] == s.ipCache[ip]
    ensures NeedAuth(s, p, kind, payload).ipCache == s.ipCache
  {
  }

  lemma MessageKeepsRoute(s: Server, auth: bool, e: Event, ip: Ip)
    requires Refs(s) && e.Datagram? && ip in s.ipCache && (PacketEvent(e) ==> Source(e) != ip)
    ensures var s' := Step(s, auth, e); ip in s'.ipCache && s'.ipCache[ip] == s.ipCache[ip]
  {
    if e.msg != [] && !(e.msg[0] % 128 == PING && e.msg[0] < 128) {
      GetRefs(s, e.rinfo, e.now);
      var (s1, p) := Get(s, e.rinfo, e.now);
      assert s1.ipCache == s.ipCache;
      hide Refs, NeedAuth, OnPacket;
      PacketKeepsRoute(s1, p, e.msg[0] % 128, e.msg[1..], e.later, ip);
    }
  }

  lemma {:induction false} RouteStays(s: Server, auth: bool, events: seq<Event>, ip: Ip)
    requires Inv(s, auth) && ip in s.ipCache && forall e <- events :: Spares(e, ip, s.ipCache[ip].expireAt)
    ensures var s' := Run(s, auth, events); ip in s'.ipCache && s'.ipCache[ip] == s.ipCache[ip]
    decreases |events|
  {
    if events != [] {
      StepKeepsInv(s, auth, events[0]);
      RouteKept(s, auth, events[0], ip);
      hide Step, Inv, Spares;
      RouteStays(Step(s, auth, events[0]), auth, events[1..], ip);
    }
  }

  /**
   Routes are used: once an address is a route to a peer, then until another
   packet claims it or it expires, whatever else happens, every permitted packet
   for it is sent to that peer alone.
   */
  lemma RouteIsUsed(s: Server, auth: bool, past: seq<Event>, events: seq<Event>, e: Event) returns (p: nat)
    requires Inv(s, auth) && Traced(s, past) && PacketEvent(e) && Destination(e) in s.ipCache
    requires forall other <- events :: Spares(other, Destination(e), s.ipCache[Destination(e)].expireAt)
    requires Source(e) != Destination(e)
    requires Permitted(Run(s, auth, events), auth, e.rinfo)
    ensures var to, s1 := s.ipCache[Destination(e)].peer, Run(s, auth, events);
            && to < |s.peers|
            && Step(s1, auth, e).sent == s1.sent + [Unicast(p, to, s.peers[to].rinfo, KindOf(e), PayloadOf(e))]
  {
    RouteStays(s, auth, events, Destination(e));
    RunTraced(s, auth, past, events);
    RunGrows(s, auth, events);
    var s1 := Run(s, auth, events);
    hide Run;
    p := PacketIsForwarded(s1, auth, e);
    StepKeepsInv(s1, auth, e);
    RouteKept(s1, auth, e, Destination(e));
  }
}
