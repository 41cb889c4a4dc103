/**
 Who is registered at the public relay server: over every run the manager's map
 is a map from addresses to the time they were last heard from.
 */
module UdpRegistry {
  import opened Bytes
  import opened UdpServer

  /** The expiry time the map has for an address. */
  function Expiry(registry: seq<Registered>, key: Addr): Option<int> {
    var i := Find(registry, key);
    if i < |registry| then Some(registry[i].expireAt) else None
  }

  /** The reference: what one event does to the time kept for an address. */
  function Next(at: Option<int>, e: Event, key: Addr): Option<int> {
    match e
    case Datagram(msg, rinfo, now, _) => if rinfo == key && msg != [] && msg[0] != 2 then Some(now + 30000) else at
    case SendFailed(to) => if to == key then None else at
    case Housekeeping(now, _) => if at.Some? && at.value < now then None else at
    case _ => at
  }

  function Kept(at: Option<int>, events: seq<Event>, key: Addr): Option<int>
    decreases |events|
  {
    if events == [] then at else Kept(Next(at, events[0], key), events[1..], key)
  }

  predicate UniqueKeys(registry: seq<Registered>) {
    forall i, j :: 0 <= i < j < |registry| ==> registry[i].key != registry[j].key
  }

  /** Where an address is in a map without duplicates. */
  lemma ExpiryAt(registry: seq<Registered>, key: Addr, i: nat)
    requires UniqueKeys(registry) && i < |registry| && registry[i].key == key
    ensures Expiry(registry, key) == Some(registry[i].expireAt)
  {
    var j := Find(registry, key);
    assert j == i;
  }

  lemma ExpiryNone(registry: seq<Registered>, key: Addr)
    requires forall i :: 0 <= i < |registry| ==> registry[i].key != key
    ensures Expiry(registry, key) == None
  {
  }

  lemma GetExpiry(s: Server, rinfo: Addr, now: int, key: Addr)
    requires UniqueKeys(s.registry)
    ensures var r := Get(s, rinfo, now).0.registry;
            UniqueKeys(r) && Expiry(r, key) == if rinfo == key then Some(now + TIMEOUT) else Expiry(s.registry, key)
  {
    var i, j := Find(s.registry, rinfo), Find(s.registry, key);
    var r := Get(s, rinfo, now).0.registry;
    if i < |s.registry| {
      assert forall k :: 0 <= k < |r| ==> r[k].key == s.registry[k].key;
    }
    if rinfo == key {
      ExpiryAt(r, key, i);
    } else if j < |s.registry| {
      ExpiryAt(r, key, j);
    } else {
      ExpiryNone(r, key);
    }
  }

  /** Taking one entry out of a map leaves the times of the others. */
  lemma RemovedExpiry(registry: seq<Registered>, i: nat, key: Addr)
    requires UniqueKeys(registry) && i < |registry|
    ensures var r := registry[..i] + registry[i + 1..];
            UniqueKeys(r) && Expiry(r, key) == if registry[i].key == key then None else Expiry(registry, key)
  {
    var r, j := registry[..i] + registry[i + 1..], Find(registry, key);
    assert forall k :: 0 <= k < |r| ==> r[k] == if k < i then registry[k] else registry[k + 1];
    if registry[i].key == key || j == |registry| {
      ExpiryNone(r, key);
    } else {
      ExpiryAt(registry, key, j);
      ExpiryAt(r, key, if j < i then j else j - 1);
    }
  }

  lemma DeleteExpiry(s: Server, to: Addr, key: Addr)
    requires UniqueKeys(s.registry)
    ensures var r := Delete(s, to).registry;
            UniqueKeys(r) && Expiry(r, key) == if to == key then None else Expiry(s.registry, key)
  {
    hide UniqueKeys;
    var i := Find(s.registry, to);
    if i < |s.registry| {
      RemovedExpiry(s.registry, i, key);
    }
  }

  lemma {:induction false} AliveExpiry(registry: seq<Registered>, now: int, key: Addr)
    requires UniqueKeys(registry)
    ensures UniqueKeys(Alive(registry, now))
    ensures var at := Expiry(registry, key);
            Expiry(Alive(registry, now), key) == if at.Some? && at.value < now then None else at
  {
    var r, j := Alive(registry, now), Find(registry, key);
    AliveUnique(registry, now);
    if j < |registry| && registry[j].expireAt >= now {
      assert registry[j] in r;
      var k :| 0 <= k < |r| && r[k] == registry[j];
      ExpiryAt(r, key, k);
    } else {
      forall k | 0 <= k < |r|
        ensures r[k].key != key
      {
        assert r[k] in r;
        var i :| 0 <= i < |registry| && registry[i] == r[k];
      }
      ExpiryNone(r, key);
    }
  }

  lemma {:induction false} AliveUnique(registry: seq<Registered>, now: int)
    requires UniqueKeys(registry)
    ensures UniqueKeys(Alive(registry, now))
  {
    if registry != [] {
      var n := |registry| - 1;
      AliveUnique(registry[..n], now);
      var before := Alive(registry[..n], now);
      forall k | 0 <= k < |before|
        ensures before[k].key != registry[n].key
      {
        assert before[k] in before;
        var i :| 0 <= i < n && registry[..n][i] == before[k];
      }
    }
  }

  lemma MessageExpiry(s: Server, auth: bool, e: Event, key: Addr)
    requires Refs(s) && UniqueKeys(s.registry) && e.Datagram?
    ensures var r := Step(s, auth, e).registry;
            UniqueKeys(r) && Expiry(r, key) == Next(Expiry(s.registry, key), e, key)
  {
    hide Expiry, UniqueKeys;
    if e.msg != [] && !(e.msg[0] % 128 == PING && e.msg[0] < 128) {
      GetExpiry(s, e.rinfo, e.now, key);
      GetRefs(s, e.rinfo, e.now);
      var (s1, p) := Get(s, e.rinfo, e.now);
      assert Step(s, auth, e).registry == s1.registry;
    }
  }

  lemma {:induction false} StepExpiry(s: Server, auth: bool, e: Event, key: Addr)
    requires Refs(s) && UniqueKeys(s.registry)
    ensures var r := Step(s, auth, e).registry;
            UniqueKeys(r) && Expiry(r, key) == Next(Expiry(s.registry, key), e, key)
  {
    hide Expiry, UniqueKeys, Alive, Delete, OnMessage;
    match e
    case Datagram(_, _, _, _) => MessageExpiry(s, auth, e, key);
    case SendFailed(to) => DeleteExpiry(s, to, key);
    case Housekeeping(now, _) => AliveExpiry(s.registry, now, key);
    case _ =>
  }

  lemma {:induction false} RunExpiry(s: Server, auth: bool, events: seq<Event>, key: Addr)
    requires Inv(s, auth) && UniqueKeys(s.registry)
    ensures var r := Run(s, auth, events).registry;
            UniqueKeys(r) && Expiry(r, key) == Kept(Expiry(s.registry, key), events, key)
    decreases |events|
  {
    hide Step, Expiry, UniqueKeys, Next;
    if events != [] {
      StepKeepsInv(s, auth, events[0]);
      StepExpiry(s, auth, events[0], key);
      RunExpiry(Step(s, auth, events[0]), auth, events[1..], key);
    }
  }

  /**
   Over every run, an address is registered, with expiry 30 seconds after the
   last datagram from it that was not a plain ping, unless since then a send to
   it failed or housekeeping came after that time.
   */
  lemma {:induction false} RegistryIsTimedMap(auth: bool, events: seq<Event>, key: Addr)
    ensures Inv(INIT, auth) && Expiry(Run(INIT, auth, events).registry, key) == Kept(None, events, key)
  {
    RunExpiry(INIT, auth, events, key);
  }

  /** A plain ping is answered with its first four bytes, to its sender, and changes nothing else. */
  lemma PingIsAnswered(s: Server, auth: bool, e: Event)
    requires Refs(s) && e.Datagram? && e.msg != [] && e.msg[0] == 2
    ensures Step(s, auth, e) == s.(sent := s.sent + [Pong(e.rinfo, if |e.msg| < 4 then e.msg else e.msg[..4])])
  {
  }

  /** Housekeeping forgets exactly the routes whose time is over. */
  lemma RoutesExpire(s: Server, auth: bool, now: int, later: int, ip: Ip)
    requires Refs(s)
    ensures var s' := Step(s, auth, Housekeeping(now, later));
            && (ip in s'.ipCache <==> ip in s.ipCache && s.ipCache[ip].expireAt >= later)
            && (ip in s'.ipCache ==> s'.ipCache[ip] == s.ipCache[ip]) && s'.sent == s.sent && s'.peers == s.peers
  {
  }

  /** Every answer to a ping starts with the type of a ping. */
  predicate PongsMarked(sent: seq<Frame>) {
    forall f <- sent :: f.Pong? ==> f.data != [] && f.data[0] == 2
  }

  lemma PacketPongs(s: Server, p: nat, kind: int, payload: seq<byte>, now: int)
    requires Refs(s) && p < |s.peers| && PongsMarked(s.sent)
    ensures PongsMarked(OnPacket(s, p, kind, payload, now).sent) && PongsMarked(NeedAuth(s, p, kind, payload).sent)
  {
    hide Refs, FloodFrames;
    RefsRegistered(s);
    if IsPacket(kind, payload) {
      var cached := s.(ipCache := s.ipCache[SrcOf(kind, payload) := CacheItem(p, now + TIMEOUT)]);
      FloodAdmitted(cached, s.registry, p, kind, payload);
    }
  }

  lemma RefsRegistered(s: Server)
    requires Refs(s)
    ensures forall e <- s.registry :: e.peer < |s.peers|
  {
  }

  lemma MessagePongs(s: Server, auth: bool, e: Event)
    requires Refs(s) && PongsMarked(s.sent) && e.Datagram?
    ensures PongsMarked(Step(s, auth, e).sent)
  {
    hide NeedAuth, OnPacket;
    if e.msg != [] && !(e.msg[0] % 128 == PING && e.msg[0] < 128) {
      GetRefs(s, e.rinfo, e.now);
      var (s1, p) := Get(s, e.rinfo, e.now);
      assert s1.sent == s.sent;
      PacketPongs(s1, p, e.msg[0] % 128, e.msg[1..], e.later);
    }
  }

  lemma {:induction false} RunPongs(s: Server, auth: bool, events: seq<Event>)
    requires Inv(s, auth) && PongsMarked(s.sent)
    ensures PongsMarked(Run(s, auth, events).sent)
    decreases |events|
  {
    if events != [] {
      StepKeepsInv(s, auth, events[0]);
      if events[0].Datagram? {
        MessagePongs(s, auth, events[0]);
      }
      hide OnMessage, FillsInOrder;
      RunPongs(Step(s, auth, events[0]), auth, events[1..]);
    }
  }
}
