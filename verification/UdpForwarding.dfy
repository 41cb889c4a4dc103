/**
 Where the public relay server's forwarded packets come from and go to, over
 every run: each is a datagram it received, unchanged, and a packet sent to one
 peer only is for an address that peer itself has sent from.
 */
module UdpForwarding {
  import opened Bytes
  import opened UdpServer

  predicate PacketEvent(e: Event) {
    e.Datagram? && |e.msg| > 0 && IsPacket(e.msg[0] % 128, e.msg[1..])
  }

  /** Some datagram so far was this packet from this address. */
  predicate Received(past: seq<Event>, rinfo: Addr, kind: int, payload: seq<byte>) {
    exists i :: 0 <= i < |past| && PacketEvent(past[i])
      && past[i].rinfo == rinfo && past[i].msg[0] % 128 == kind && past[i].msg[1..] == payload
  }

  /** Some datagram so far was a packet from this address with this source. */
  predicate SentFrom(past: seq<Event>, rinfo: Addr, ip: Ip) {
    exists i :: 0 <= i < |past| && PacketEvent(past[i])
      && past[i].rinfo == rinfo && SrcOf(past[i].msg[0] % 128, past[i].msg[1..]) == ip
  }

  predicate FrameTraced(s: Server, past: seq<Event>, f: Frame) {
    f.Unicast? || f.Flood? ==>
      && f.from < |s.peers| && f.peer < |s.peers|
      && f.to == s.peers[f.peer].rinfo
      && IsPacket(f.kind, f.payload)
      && Received(past, s.peers[f.from].rinfo, f.kind, f.payload)
      && (f.Flood? ==> f.to != s.peers[f.from].rinfo)
      && (f.Unicast? ==> SentFrom(past, f.to, DstOf(f.kind, f.payload)))
  }

  predicate Keyed(s: Server) {
    forall e <- s.registry :: e.peer < |s.peers| && s.peers[e.peer].rinfo == e.key
  }

  predicate CacheTraced(s: Server, past: seq<Event>) {
    forall ip <- s.ipCache :: s.ipCache[ip].peer < |s.peers| && SentFrom(past, s.peers[s.ipCache[ip].peer].rinfo, ip)
  }

  predicate Traced(s: Server, past: seq<Event>) {
    Keyed(s) && CacheTraced(s, past) && forall f <- s.sent :: FrameTraced(s, past, f)
  }

  lemma ReceivedKept(past: seq<Event>, past': seq<Event>, rinfo: Addr, kind: int, payload: seq<byte>)
    requires past <= past' && Received(past, rinfo, kind, payload)
    ensures Received(past', rinfo, kind, payload)
  {
    var i :| 0 <= i < |past| && PacketEvent(past[i])
      && past[i].rinfo == rinfo && past[i].msg[0] % 128 == kind && past[i].msg[1..] == payload;
    assert past'[i] == past[i];
  }

  lemma SentFromKept(past: seq<Event>, past': seq<Event>, rinfo: Addr, ip: Ip)
    requires past <= past' && SentFrom(past, rinfo, ip)
    ensures SentFrom(past', rinfo, ip)
  {
    var i :| 0 <= i < |past| && PacketEvent(past[i])
      && past[i].rinfo == rinfo && SrcOf(past[i].msg[0] % 128, past[i].msg[1..]) == ip;
    assert past'[i] == past[i];
  }

  lemma NowReceived(past: seq<Event>, e: Event)
    requires PacketEvent(e)
    ensures Received(past + [e], e.rinfo, e.msg[0] % 128, e.msg[1..])
    ensures SentFrom(past + [e], e.rinfo, SrcOf(e.msg[0] % 128, e.msg[1..]))
  {
    assert (past + [e])[|past|] == e;
  }

  lemma FrameKept(s: Server, s': Server, past: seq<Event>, past': seq<Event>, f: Frame)
    requires FrameTraced(s, past, f) && Grows(s, s') && past <= past'
    ensures FrameTraced(s', past', f)
  {
    hide Received, SentFrom;
    if f.Unicast? || f.Flood? {
      ReceivedKept(past, past', s.peers[f.from].rinfo, f.kind, f.payload);
      if f.Unicast? {
        SentFromKept(past, past', f.to, DstOf(f.kind, f.payload));
      }
    }
  }

  /** A step that forwards nothing and adds nothing to the two maps. */
  lemma QuietStep(s: Server, s': Server, past: seq<Event>, past': seq<Event>)
    requires Traced(s, past) && Grows(s, s') && past <= past'
    requires Keyed(s')
    requires forall ip <- s'.ipCache :: ip in s.ipCache && s'.ipCache[ip] == s.ipCache[ip]
    requires forall i :: |s.sent| <= i < |s'.sent| ==> !s'.sent[i].Unicast? && !s'.sent[i].Flood?
    ensures Traced(s', past')
  {
    hide SentFrom, FrameTraced;
    forall ip <- s'.ipCache
      ensures SentFrom(past', s'.peers[s'.ipCache[ip].peer].rinfo, ip)
    {
      SentFromKept(past, past', s.peers[s.ipCache[ip].peer].rinfo, ip);
    }
    forall i | 0 <= i < |s'.sent|
      ensures FrameTraced(s', past', s'.sent[i])
    {
      if i < |s.sent| {
        assert s'.sent[i] == s.sent[i];
        FrameKept(s, s', past, past', s.sent[i]);
      } else {
        NotForwarded(s', past', s'.sent[i]);
      }
    }
  }

  lemma NotForwarded(s: Server, past: seq<Event>, f: Frame)
    requires !f.Unicast? && !f.Flood?
    ensures FrameTraced(s, past, f)
  {
  }

  lemma GetKeyed(s: Server, rinfo: Addr, now: int)
    requires Keyed(s) && Refs(s)
    ensures var (s1, p) := Get(s, rinfo, now); Keyed(s1) && p < |s1.peers| && s1.peers[p].rinfo == rinfo
  {
  }

  lemma {:induction false} FloodTraced(s: Server, registry: seq<Registered>, p: nat, kind: int, payload: seq<byte>,
                                       past: seq<Event>)
    requires p < |s.peers| && IsPacket(kind, payload) && Received(past, s.peers[p].rinfo, kind, payload)
    requires forall e <- registry :: e.peer < |s.peers| && s.peers[e.peer].rinfo == e.key
    ensures forall f <- FloodFrames(s, registry, p, kind, payload) :: FrameTraced(s, past, f)
  {
    if registry != [] {
      FloodTraced(s, registry[..|registry| - 1], p, kind, payload, past);
    }
  }

  /** A flooded packet reaches every registered address but the sender's. */
  lemma {:induction false} FloodReaches(s: Server, registry: seq<Registered>, p: nat, kind: int, payload: seq<byte>)
    requires p < |s.peers|
    requires forall e <- registry :: e.peer < |s.peers| && s.peers[e.peer].rinfo == e.key
    ensures forall e <- registry ::
      Flood(p, e.peer, e.key, kind, payload) in FloodFrames(s, registry, p, kind, payload) <==>
        e.key != s.peers[p].rinfo
    ensures |FloodFrames(s, registry, p, kind, payload)| <= |registry|
    ensures forall f <- FloodFrames(s, registry, p, kind, payload) :: f.Flood? && f.to != s.peers[p].rinfo
  {
    if registry != [] {
      FloodReaches(s, registry[..|registry| - 1], p, kind, payload);
    }
  }

  /** The server after the source address is cached, before anything is sent. */
  lemma CacheStillTraced(s: Server, p: nat, src: Ip, expireAt: int, past: seq<Event>, past': seq<Event>)
    requires Traced(s, past) && past <= past' && p < |s.peers| && SentFrom(past', s.peers[p].rinfo, src)
    ensures Traced(s.(ipCache := s.ipCache[src := CacheItem(p, expireAt)]), past')
  {
    hide SentFrom, FrameTraced;
    var s' := s.(ipCache := s.ipCache[src := CacheItem(p, expireAt)]);
    forall ip <- s'.ipCache
      ensures SentFrom(past', s'.peers[s'.ipCache[ip].peer].rinfo, ip)
    {
      if ip != src {
        SentFromKept(past, past', s.peers[s.ipCache[ip].peer].rinfo, ip);
      }
    }
    forall f <- s.sent
      ensures FrameTraced(s', past', f)
    {
      FrameKept(s, s', past, past', f);
    }
  }

  lemma SendTraced(s: Server, frames: seq<Frame>, past: seq<Event>)
    requires Traced(s, past) && forall f <- frames :: FrameTraced(s, past, f)
    ensures Traced(Send(s, frames), past)
  {
    hide Received, SentFrom;
    var s' := Send(s, frames);
    forall f <- s'.sent
      ensures FrameTraced(s', past, f)
    {
      assert FrameTraced(s, past, f);
    }
  }

  lemma UnicastTraced(s: Server, p: nat, to: nat, kind: int, payload: seq<byte>, past: seq<Event>)
    requires Traced(s, past) && p < |s.peers| && to < |s.peers| && IsPacket(kind, payload)
    requires Received(past, s.peers[p].rinfo, kind, payload)
    requires SentFrom(past, s.peers[to].rinfo, DstOf(kind, payload))
    ensures Traced(Send(s, [Unicast(p, to, s.peers[to].rinfo, kind, payload)]), past)
  {
    hide Received, SentFrom;
    var f := Unicast(p, to, s.peers[to].rinfo, kind, payload);
    assert FrameTraced(s, past, f);
    SendTraced(s, [f], past);
  }

  lemma FloodedTraced(s: Server, p: nat, kind: int, payload: seq<byte>, past: seq<Event>)
    requires Traced(s, past) && p < |s.peers| && IsPacket(kind, payload)
    requires Received(past, s.peers[p].rinfo, kind, payload)
    ensures Traced(Send(s, FloodFrames(s, s.registry, p, kind, payload)), past)
  {
    FloodTraced(s, s.registry, p, kind, payload, past);
    SendTraced(s, FloodFrames(s, s.registry, p, kind, payload), past);
  }

  lemma CachedSource(s: Server, past: seq<Event>, ip: Ip)
    requires Traced(s, past) && ip in s.ipCache
    ensures s.ipCache[ip].peer < |s.peers| && SentFrom(past, s.peers[s.ipCache[ip].peer].rinfo, ip)
  {
  }

  lemma {:induction false} ForwardTraced(s: Server, p: nat, kind: int, payload: seq<byte>, now: int, past: seq<Event>,
                                         past': seq<Event>)
    requires Traced(s, past) && past <= past' && Refs(s) && p < |s.peers| && IsPacket(kind, payload)
    requires Received(past', s.peers[p].rinfo, kind, payload)
    requires SentFrom(past', s.peers[p].rinfo, SrcOf(kind, payload))
    ensures Traced(OnPacket(s, p, kind, payload, now), past')
  {
    var src, dst := SrcOf(kind, payload), DstOf(kind, payload);
    CacheStillTraced(s, p, src, now + TIMEOUT, past, past');
    var s1 := s.(ipCache := s.ipCache[src := CacheItem(p, now + TIMEOUT)]);
    hide Traced, Received, SentFrom, FloodFrames;
    if dst in s1.ipCache {
      CachedSource(s1, past', dst);
      UnicastTraced(s1, p, s1.ipCache[dst].peer, kind, payload, past');
    } else {
      FloodedTraced(s1, p, kind, payload, past');
    }
  }

  lemma NeedAuthTraced(s: Server, auth: bool, p: nat, kind: int, payload: seq<byte>, past: seq<Event>,
                       past': seq<Event>)
    requires Inv(s, auth) && Traced(s, past) && past <= past' && p < |s.peers|
    ensures Traced(NeedAuth(s, p, kind, payload), past')
  {
    NeedAuthStep(s, auth, p, kind, payload);
    hide FrameTraced, CacheTraced;
    QuietStep(s, NeedAuth(s, p, kind, payload), past, past');
  }

  lemma GetTraced(s: Server, auth: bool, rinfo: Addr, now: int, past: seq<Event>)
    requires Inv(s, auth) && Traced(s, past)
    ensures Traced(Get(s, rinfo, now).0, past)
  {
    GetStep(s, auth, rinfo, now);
    GetKeyed(s, rinfo, now);
    hide FrameTraced, CacheTraced;
    QuietStep(s, Get(s, rinfo, now).0, past, past);
  }

  lemma OnMessageTraced(s: Server, auth: bool, e: Event, past: seq<Event>)
    requires Inv(s, auth) && Traced(s, past) && e.Datagram?
    ensures Traced(Step(s, auth, e), past + [e])
  {
    var past' := past + [e];
    StepKeepsInv(s, auth, e);
    if e.msg == [] || (e.msg[0] % 128 == PING && e.msg[0] < 128) {
      hide FrameTraced, CacheTraced, Inv, Grows;
      QuietStep(s, Step(s, auth, e), past, past');
    } else {
      GetStep(s, auth, e.rinfo, e.now);
      GetKeyed(s, e.rinfo, e.now);
      GetTraced(s, auth, e.rinfo, e.now, past);
      var (s1, p) := Get(s, e.rinfo, e.now);
      var kind, payload := e.msg[0] % 128, e.msg[1..];
      hide Traced, Grows, FillsInOrder, Get;
      if auth && s1.peers[p].user.None? {
        NeedAuthTraced(s1, auth, p, kind, payload, past, past');
      } else if IsPacket(kind, payload) {
        NowReceived(past, e);
        hide Received, SentFrom;
        ForwardTraced(s1, p, kind, payload, e.later, past, past');
      } else {
        SameTraced(s1, past, past');
      }
    }
  }

  lemma SameTraced(s: Server, past: seq<Event>, past': seq<Event>)
    requires Traced(s, past) && past <= past'
    ensures Traced(s, past')
  {
    GrowsReflexive(s);
    hide FrameTraced, CacheTraced;
    QuietStep(s, s, past, past');
  }

  lemma DroppedTraced(s: Server, auth: bool, e: Event, past: seq<Event>)
    requires Inv(s, auth) && Traced(s, past) && (e.SendFailed? || e.Housekeeping?)
    ensures Traced(Step(s, auth, e), past + [e])
  {
    StepKeepsInv(s, auth, e);
    hide FrameTraced, CacheTraced, FillsInOrder;
    QuietStep(s, Step(s, auth, e), past, past + [e]);
  }

  lemma {:induction false} StepTraced(s: Server, auth: bool, e: Event, past: seq<Event>)
    requires Inv(s, auth) && Traced(s, past)
    ensures Traced(Step(s, auth, e), past + [e])
  {
    if e.Datagram? {
      OnMessageTraced(s, auth, e, past);
    } else if e.SendFailed? || e.Housekeeping? {
      DroppedTraced(s, auth, e, past);
    } else {
      StepKeepsInv(s, auth, e);
      hide FrameTraced, CacheTraced, FillsInOrder;
      QuietStep(s, Step(s, auth, e), past, past + [e]);
    }
  }

  lemma {:induction false} RunTraced(s: Server, auth: bool, past: seq<Event>, events: seq<Event>)
    requires Inv(s, auth) && Traced(s, past)
    ensures Traced(Run(s, auth, events), past + events)
    decreases |events|
  {
    if events == [] {
      assert past + events == past;
    } else {
      StepKeepsInv(s, auth, events[0]);
      StepTraced(s, auth, events[0], past);
      hide Traced, Step, FillsInOrder, Grows;
      RunTraced(Step(s, auth, events[0]), auth, past + [events[0]], events[1..]);
      assert past + [events[0]] + events[1..] == past + events;
    }
  }

  /**
   In every run, with or without an auth provider, a forwarded frame carries
   the kind and payload of a datagram received from the forwarding peer's
   address. A flooded one does not go back to that address; a unicast one goes
   to an address from which a packet with its destination as source was received.
   */
  lemma ForwardedIsReceived(auth: bool, events: seq<Event>, i: nat)
    requires var sent := Run(INIT, auth, events).sent; i < |sent| && (sent[i].Unicast? || sent[i].Flood?)
    ensures var s := Run(INIT, auth, events);
            var f := s.sent[i];
            && f.from < |s.peers| && IsPacket(f.kind, f.payload)
            && Received(events, s.peers[f.from].rinfo, f.kind, f.payload)
            && (f.Flood? ==> f.to != s.peers[f.from].rinfo)
            && (f.Unicast? ==> SentFrom(events, f.to, DstOf(f.kind, f.payload)))
  {
    RunTraced(INIT, auth, [], events);
    assert [] + events == events;
    var s := Run(INIT, auth, events);
    hide Run, Received, SentFrom;
    assert FrameTraced(s, events, s.sent[i]);
  }
}
