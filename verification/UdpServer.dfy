/**
 The public relay server of server/src/udpserver.ts as a state machine: one
 step per datagram, per resolved or rejected promise, per failed send and per
 housekeeping tick, in any interleaving. Peer and Buffer objects are indices,
 so that a promise can hold on to an object the maps have dropped.
 */
module UdpServer {
  import opened Bytes

  const TIMEOUT := 30 * 1000
  const IPV4 := 1
  const PING := 2
  const IPV4_FRAG := 3
  const AUTH_ME := 4
  const CHALLENGE_LEN := 64
  const WRONG_PASSWORD := "Error when login: Wrong password"

  datatype Addr = Addr(address: string, port: nat)

  /** user and challenge are the optional fields; challenge names a buffer. */
  datatype Peer = Peer(rinfo: Addr, user: Option<seq<byte>>, challenge: Option<nat>)

  /** marker is byte 0, 0xFF while filling; written are the other positions the random source has written. */
  datatype Buffer = Buffer(marker: byte, bytes: seq<byte>, written: set<nat>) {
    function Content(): seq<byte> {
      [marker] + bytes
    }

    /** Every position has come from the random source. */
    predicate Complete() {
      forall k: nat :: k < |bytes| ==> k in written
    }
  }

  /** An entry of the manager's map, in insertion order. */
  datatype Registered = Registered(key: Addr, expireAt: int, peer: nat)

  datatype CacheItem = CacheItem(peer: nat, expireAt: int)

  /** A suspended async call. */
  datatype Task =
    | Filling(peer: nat, buffer: nat)
    | Verifying(peer: nat, buffer: nat, username: seq<byte>, response: seq<byte>)
    | Finished

  /** A datagram given to the socket; `from` is the peer whose packet is forwarded. */
  datatype Frame =
    | Pong(to: Addr, data: seq<byte>)
    | AuthMe(peer: nat, to: Addr, payload: seq<byte>)
    | Info(peer: nat, to: Addr, text: string)
    | Unicast(from: nat, peer: nat, to: Addr, kind: int, payload: seq<byte>)
    | Flood(from: nat, peer: nat, to: Addr, kind: int, payload: seq<byte>)

  datatype Server = Server(
    peers: seq<Peer>,
    buffers: seq<Buffer>,
    registry: seq<Registered>,
    ipCache: map<Ip, CacheItem>,
    tasks: seq<Task>,
    sent: seq<Frame>
  )

  const INIT := Server([], [], [], map[], [], [])

  /** now and later are the two clock readings one datagram or one housekeeping tick can cause. */
  datatype Event =
    | Datagram(msg: seq<byte>, rinfo: Addr, now: int, later: int)
    | Wrote(task: nat, offset: nat, bytes: seq<byte>)
    | FillResolved(task: nat)
    | FillRejected(task: nat)
    | VerifyResolved(task: nat, ok: bool)
    | VerifyRejected(task: nat, text: string)
    | SendFailed(to: Addr)
    | Housekeeping(now: int, later: int)

  /** The position of a key in the manager's map, or |registry|. */
  function Find(registry: seq<Registered>, key: Addr): (i: nat)
    ensures i <= |registry|
    ensures i < |registry| ==> registry[i].key == key
    ensures forall j :: 0 <= j < i ==> registry[j].key != key
  {
    if registry == [] || registry[0].key == key then 0 else 1 + Find(registry[1..], key)
  }

  /** PeerManager.get: the peer for an address, made if need be. */
  function Get(s: Server, rinfo: Addr, now: int): (Server, nat) {
    var i := Find(s.registry, rinfo);
    if i < |s.registry| then
      (s.(registry := s.registry[i := s.registry[i].(expireAt := now + TIMEOUT)]), s.registry[i].peer)
    else
      (s.(peers := s.peers + [Peer(rinfo, None, None)],
          registry := s.registry + [Registered(rinfo, now + TIMEOUT, |s.peers|)]), |s.peers|)
  }

  function Send(s: Server, frames: seq<Frame>): Server {
    s.(sent := s.sent + frames)
  }

  /** sendTo(peer, AuthMe, peer.challenge). */
  function SendChallenge(s: Server, p: nat): Server
    requires p < |s.peers| && s.peers[p].challenge.Some? && s.peers[p].challenge.value < |s.buffers|
  {
    Send(s, [AuthMe(p, s.peers[p].rinfo, s.buffers[s.peers[p].challenge.value].Content())])
  }

  function Blank(): seq<byte> {
    seq(CHALLENGE_LEN, _ => 0)
  }

  /** onNeedAuth up to its first await. */
  function NeedAuth(s: Server, p: nat, kind: int, payload: seq<byte>): Server
    requires p < |s.peers|
    requires s.peers[p].challenge.Some? ==> s.peers[p].challenge.value < |s.buffers|
  {
    var challenge := s.peers[p].challenge;
    if kind == AUTH_ME then
      if challenge.Some? && |payload| > 20 then
        s.(tasks := s.tasks + [Verifying(p, challenge.value, payload[20..], payload[..20])])
      else s
    else if challenge.None? then
      s.(peers := s.peers[p := s.peers[p].(challenge := Some(|s.buffers|))],
         buffers := s.buffers + [Buffer(0xFF, Blank(), {})],
         tasks := s.tasks + [Filling(p, |s.buffers|)])
    else if s.buffers[challenge.value].marker == 0xFF then s
    else SendChallenge(s, p)
  }

  /** sendBroadcast: every registered peer but the sender, in insertion order. */
  function FloodFrames(s: Server, registry: seq<Registered>, p: nat, kind: int, payload: seq<byte>): seq<Frame>
    requires p < |s.peers| && forall e <- registry :: e.peer < |s.peers|
  {
    if registry == [] then [] else
    var n := |registry| - 1;
    var e := registry[n];
    var before := FloodFrames(s, registry[..n], p, kind, payload);
    if e.key == s.peers[p].rinfo then before else before + [Flood(p, e.peer, s.peers[e.peer].rinfo, kind, payload)]
  }

  /** onIpv4 and onIpv4Frag after reading the two addresses. */
  function Forward(s: Server, p: nat, kind: int, payload: seq<byte>, src: Ip, dst: Ip, now: int): Server
    requires p < |s.peers| && Refs(s)
  {
    var cache := s.ipCache[src := CacheItem(p, now + TIMEOUT)];
    var s1 := s.(ipCache := cache);
    if dst in cache then
      var to := cache[dst].peer;
      Send(s1, [Unicast(p, to, s.peers[to].rinfo, kind, payload)])
    else Send(s1, FloodFrames(s1, s.registry, p, kind, payload))
  }

  /** The messages that carry a packet, and where it comes from and goes to. */
  predicate IsPacket(kind: int, payload: seq<byte>) {
    (kind == IPV4 || kind == IPV4_FRAG) && |payload| > 20
  }

  function SrcOf(kind: int, payload: seq<byte>): Ip
    requires IsPacket(kind, payload)
  {
    if kind == IPV4 then payload[12..16] else payload[0..4]
  }

  function DstOf(kind: int, payload: seq<byte>): Ip
    requires IsPacket(kind, payload)
  {
    if kind == IPV4 then payload[16..20] else payload[4..8]
  }

  function OnPacket(s: Server, p: nat, kind: int, payload: seq<byte>, now: int): Server
    requires p < |s.peers| && Refs(s)
  {
    if IsPacket(kind, payload) then Forward(s, p, kind, payload, SrcOf(kind, payload), DstOf(kind, payload), now)
    else s
  }

  function OnMessage(s: Server, auth: bool, msg: seq<byte>, rinfo: Addr, now: int, later: int): Server
    requires Refs(s)
  {
    if msg == [] then s else
    var kind, encrypted := msg[0] % 128, msg[0] >= 128;
    if kind == PING && !encrypted then Send(s, [Pong(rinfo, if |msg| < 4 then msg else msg[..4])]) else
    var (s1, p) := Get(s, rinfo, now);
    GetRefs(s, rinfo, now);
    if auth && s1.peers[p].user.None? then NeedAuth(s1, p, kind, msg[1..])
    else OnPacket(s1, p, kind, msg[1..], later)
  }

  predicate IsFilling(s: Server, t: nat) {
    t < |s.tasks| && s.tasks[t].Filling?
  }

  predicate IsVerifying(s: Server, t: nat) {
    t < |s.tasks| && s.tasks[t].Verifying?
  }

  /** The positions of a range of the given length. */
  function Range(offset: nat, len: nat): (r: set<nat>)
    ensures forall k: nat :: k in r <==> offset <= k < offset + len
  {
    if len == 0 then {} else Range(offset, len - 1) + {offset + len - 1}
  }

  /** The random source writes some bytes of the challenge, in any order and in any pieces. */
  function OnWrote(s: Server, t: nat, offset: nat, bytes: seq<byte>): Server
    requires Refs(s)
  {
    if IsFilling(s, t) && offset + |bytes| <= |s.buffers[s.tasks[t].buffer].bytes| then
      var b := s.tasks[t].buffer;
      var was := s.buffers[b];
      s.(buffers := s.buffers[b := Buffer(was.marker, Put(was.bytes, offset, bytes),
                                          was.written + Range(offset, |bytes|))])
    else s
  }

  /** The rest of onNeedAuth after randomFill; it resolves only once everything is written. */
  function OnFillResolved(s: Server, t: nat): Server
    requires Refs(s)
  {
    if IsFilling(s, t) && s.buffers[s.tasks[t].buffer].Complete() then
      var b := s.tasks[t].buffer;
      SendChallenge(
        s.(buffers := s.buffers[b := s.buffers[b].(marker := 0)], tasks := s.tasks[t := Finished]),
        s.tasks[t].peer)
    else s
  }

  function OnFillRejected(s: Server, t: nat): Server {
    if IsFilling(s, t) then s.(tasks := s.tasks[t := Finished]) else s
  }

  /** The rest of onNeedAuth after verify; a wrong password is reported twice. */
  function OnVerifyResolved(s: Server, t: nat, ok: bool): Server
    requires Refs(s)
  {
    if !IsVerifying(s, t) then s else
    var p, done := s.tasks[t].peer, s.(tasks := s.tasks[t := Finished]);
    if ok then done.(peers := s.peers[p := s.peers[p].(user := Some(s.tasks[t].username))])
    else Send(done, [Info(p, s.peers[p].rinfo, WRONG_PASSWORD), Info(p, s.peers[p].rinfo, WRONG_PASSWORD)])
  }

  function OnVerifyRejected(s: Server, t: nat, text: string): Server
    requires Refs(s)
  {
    if !IsVerifying(s, t) then s else
    var p := s.tasks[t].peer;
    Send(s.(tasks := s.tasks[t := Finished]), [Info(p, s.peers[p].rinfo, "Error when login: " + text)])
  }

  /** PeerManager.delete. */
  function Delete(s: Server, key: Addr): Server {
    var i := Find(s.registry, key);
    if i < |s.registry| then s.(registry := s.registry[..i] + s.registry[i + 1..]) else s
  }

  /** clearCacheItem on the manager's map. */
  function Alive(registry: seq<Registered>, now: int): (r: seq<Registered>)
    ensures forall e <- r :: e in registry && e.expireAt >= now
    ensures forall e <- registry :: e.expireAt >= now ==> e in r
  {
    if registry == [] then [] else
    var n := |registry| - 1;
    if registry[n].expireAt < now then Alive(registry[..n], now) else Alive(registry[..n], now) + [registry[n]]
  }

  function ClearExpire(s: Server, now: int, later: int): Server {
    s.(registry := Alive(s.registry, now),
       ipCache := map ip | ip in s.ipCache && s.ipCache[ip].expireAt >= later :: s.ipCache[ip])
  }

  function Step(s: Server, auth: bool, e: Event): Server
    requires Refs(s)
  {
    match e
    case Datagram(msg, rinfo, now, later) => OnMessage(s, auth, msg, rinfo, now, later)
    case Wrote(t, offset, bytes) => OnWrote(s, t, offset, bytes)
    case FillResolved(t) => OnFillResolved(s, t)
    case FillRejected(t) => OnFillRejected(s, t)
    case VerifyResolved(t, ok) => OnVerifyResolved(s, t, ok)
    case VerifyRejected(t, text) => OnVerifyRejected(s, t, text)
    case SendFailed(to) => Delete(s, to)
    case Housekeeping(now, later) => ClearExpire(s, now, later)
  }

  // ----- references between objects -----

  /** Every reference points at an object; a pending fill is for its peer's own challenge. */
  predicate Refs(s: Server) {
    && (forall e <- s.registry :: e.peer < |s.peers|)
    && (forall ip <- s.ipCache :: s.ipCache[ip].peer < |s.peers|)
    && (forall p :: 0 <= p < |s.peers| && s.peers[p].challenge.Some? ==> s.peers[p].challenge.value < |s.buffers|)
    && (forall t :: 0 <= t < |s.tasks| ==> TaskRefs(s, s.tasks[t]))
  }

  predicate TaskRefs(s: Server, t: Task) {
    match t
    case Filling(p, b) => p < |s.peers| && b < |s.buffers| && s.peers[p].challenge == Some(b)
    case Verifying(p, b, _, _) => p < |s.peers| && b < |s.buffers| && s.peers[p].challenge == Some(b)
    case Finished => true
  }

  /** What happens to the objects of the heap in a step: fields are only ever filled in. */
  predicate Grows(s: Server, s': Server) {
    && |s.peers| <= |s'.peers| && |s.buffers| <= |s'.buffers|
    && (forall p :: 0 <= p < |s.peers| ==>
          && s'.peers[p].rinfo == s.peers[p].rinfo
          && (s.peers[p].user.Some? ==> s'.peers[p].user.Some?)
          && (s.peers[p].challenge.Some? ==> s'.peers[p].challenge == s.peers[p].challenge))
    && (forall b :: 0 <= b < |s.buffers| && s.buffers[b].marker != 0xFF ==> s'.buffers[b] == s.buffers[b])
    && s.sent <= s'.sent
  }

  lemma GrowsTransitive(s: Server, t: Server, u: Server)
    requires Grows(s, t) && Grows(t, u)
    ensures Grows(s, u)
  {
  }

  lemma GetRefs(s: Server, rinfo: Addr, now: int)
    requires Refs(s)
    ensures var (s1, p) := Get(s, rinfo, now); Refs(s1) && p < |s1.peers| && Grows(s, s1)
  {
    var (s1, p) := Get(s, rinfo, now);
    forall t | 0 <= t < |s.tasks|
      ensures TaskRefs(s1, s.tasks[t])
    {
      assert TaskRefs(s, s.tasks[t]);
    }
  }

  // ----- the invariant -----

  /** A fill is pending only while the marker says so; no two fills share a buffer; a cleared marker means filled. */
  predicate FillsInOrder(s: Server)
    requires Refs(s)
  {
    && (forall t :: 0 <= t < |s.tasks| && s.tasks[t].Filling? ==> s.buffers[s.tasks[t].buffer].marker == 0xFF)
    && (forall t, u :: 0 <= t < u < |s.tasks| && s.tasks[t].Filling? && s.tasks[u].Filling? ==>
          s.tasks[t].buffer != s.tasks[u].buffer)
    && (forall b <- s.buffers :: b.marker != 0xFF ==> b.marker == 0 && b.Complete())
    && (forall b <- s.buffers :: |b.bytes| == CHALLENGE_LEN)
  }

  /** An AuthMe frame shows the filled challenge its peer has for good. */
  predicate Genuine(s: Server, f: Frame) {
    f.AuthMe? ==>
      && f.peer < |s.peers| && s.peers[f.peer].challenge.Some? && f.to == s.peers[f.peer].rinfo
      && var b := s.peers[f.peer].challenge.value;
         b < |s.buffers| && s.buffers[b].marker == 0 && s.buffers[b].Complete() && f.payload == s.buffers[b].Content()
  }

  predicate LoggedIn(s: Server, p: nat) {
    p < |s.peers| && s.peers[p].user.Some?
  }

  /** Forwarded packets come from logged-in peers; unicast ones also go to one. */
  predicate Admitted(s: Server, f: Frame) {
    && (f.Unicast? ==> LoggedIn(s, f.from) && LoggedIn(s, f.peer))
    && (f.Flood? ==> LoggedIn(s, f.from))
  }

  predicate CacheAdmitted(s: Server) {
    forall ip <- s.ipCache :: LoggedIn(s, s.ipCache[ip].peer)
  }

  predicate Inv(s: Server, auth: bool) {
    && Refs(s)
    && FillsInOrder(s)
    && (forall f <- s.sent :: Genuine(s, f))
    && (auth ==> CacheAdmitted(s) && forall f <- s.sent :: Admitted(s, f))
  }

  // ----- one lemma per step -----

  /** A step that only adds frames, objects and fields keeps what was true of the old frames. */
  lemma OldFramesKept(s: Server, s': Server, auth: bool)
    requires Inv(s, auth) && Grows(s, s')
    ensures forall f <- s.sent :: Genuine(s', f)
    ensures auth ==> forall f <- s.sent :: Admitted(s', f)
  {
    forall f <- s.sent
      ensures Genuine(s', f) && (auth ==> Admitted(s', f))
    {
      assert Genuine(s, f);
    }
  }

  lemma GetStep(s: Server, auth: bool, rinfo: Addr, now: int)
    requires Inv(s, auth)
    ensures var (s1, p) := Get(s, rinfo, now); p < |s1.peers| && Inv(s1, auth) && Grows(s, s1)
  {
    GetRefs(s, rinfo, now);
    var (s1, p) := Get(s, rinfo, now);
    OldFramesKept(s, s1, auth);
  }

  lemma SendStep(s: Server, auth: bool, frames: seq<Frame>)
    requires Inv(s, auth) && forall f <- frames :: Genuine(s, f) && (auth ==> Admitted(s, f))
    ensures Inv(Send(s, frames), auth) && Grows(s, Send(s, frames))
  {
    var s' := Send(s, frames);
    OldFramesKept(s, s', auth);
    forall t | 0 <= t < |s.tasks|
      ensures TaskRefs(s', s.tasks[t])
    {
      assert TaskRefs(s, s.tasks[t]);
    }
    forall f <- frames
      ensures Genuine(s', f) && (auth ==> Admitted(s', f))
    {
      assert Genuine(s, f);
    }
  }

  /** A first message from a stranger starts a fill. */
  lemma ChallengeStep(s: Server, auth: bool, p: nat, kind: int, payload: seq<byte>)
    requires Inv(s, auth) && p < |s.peers| && s.peers[p].challenge.None? && kind != AUTH_ME
    ensures var s' := NeedAuth(s, p, kind, payload); Inv(s', auth) && Grows(s, s')
  {
    OldFramesKept(s, NeedAuth(s, p, kind, payload), auth);
  }

  lemma NeedAuthStep(s: Server, auth: bool, p: nat, kind: int, payload: seq<byte>)
    requires Inv(s, auth) && p < |s.peers|
    ensures var s' := NeedAuth(s, p, kind, payload); Inv(s', auth) && Grows(s, s')
  {
    var s' := NeedAuth(s, p, kind, payload);
    if kind == AUTH_ME {
      OldFramesKept(s, s', auth);
    } else if s.peers[p].challenge.None? {
      ChallengeStep(s, auth, p, kind, payload);
    } else if s.buffers[s.peers[p].challenge.value].marker != 0xFF {
      var f := AuthMe(p, s.peers[p].rinfo, s.buffers[s.peers[p].challenge.value].Content());
      assert Genuine(s, f) && Admitted(s, f);
      SendStep(s, auth, [f]);
    }
  }

  lemma {:induction false} FloodAdmitted(s: Server, registry: seq<Registered>, p: nat, kind: int, payload: seq<byte>)
    requires p < |s.peers| && forall e <- registry :: e.peer < |s.peers|
    ensures forall f <- FloodFrames(s, registry, p, kind, payload) :: f.Flood? && f.from == p
  {
    if registry != [] {
      FloodAdmitted(s, registry[..|registry| - 1], p, kind, payload);
    }
  }

  /** The packet's source address now belongs to its sender. */
  lemma CacheStep(s: Server, auth: bool, p: nat, src: Ip, expireAt: int)
    requires Inv(s, auth) && p < |s.peers| && (auth ==> LoggedIn(s, p))
    ensures var s' := s.(ipCache := s.ipCache[src := CacheItem(p, expireAt)]); Inv(s', auth) && Grows(s, s')
  {
    var s' := s.(ipCache := s.ipCache[src := CacheItem(p, expireAt)]);
    OldFramesKept(s, s', auth);
    forall t | 0 <= t < |s.tasks|
      ensures TaskRefs(s', s.tasks[t])
    {
      assert TaskRefs(s, s.tasks[t]);
    }
  }

  lemma ForwardStep(s: Server, auth: bool, p: nat, kind: int, payload: seq<byte>, src: Ip, dst: Ip, now: int)
    requires Inv(s, auth) && p < |s.peers| && (auth ==> LoggedIn(s, p))
    ensures var s' := Forward(s, p, kind, payload, src, dst, now); Inv(s', auth) && Grows(s, s')
  {
    CacheStep(s, auth, p, src, now + TIMEOUT);
    var s1 := s.(ipCache := s.ipCache[src := CacheItem(p, now + TIMEOUT)]);
    FloodAdmitted(s1, s.registry, p, kind, payload);
    hide FillsInOrder, Grows;
    if dst in s1.ipCache {
      var to := s1.ipCache[dst].peer;
      SendStep(s1, auth, [Unicast(p, to, s.peers[to].rinfo, kind, payload)]);
    } else {
      SendStep(s1, auth, FloodFrames(s1, s.registry, p, kind, payload));
    }
    GrowsTransitive(s, s1, Forward(s, p, kind, payload, src, dst, now));
  }

  lemma OnMessageStep(s: Server, auth: bool, msg: seq<byte>, rinfo: Addr, now: int, later: int)
    requires Inv(s, auth)
    ensures var s' := OnMessage(s, auth, msg, rinfo, now, later); Inv(s', auth) && Grows(s, s')
  {
    if msg != [] {
      if msg[0] % 128 == PING && msg[0] < 128 {
        OldFramesKept(s, OnMessage(s, auth, msg, rinfo, now, later), auth);
      } else {
        GetStep(s, auth, rinfo, now);
        var (s1, p) := Get(s, rinfo, now);
        var kind, payload := msg[0] % 128, msg[1..];
        hide Inv, Grows, Refs;
        if auth && s1.peers[p].user.None? {
          NeedAuthStep(s1, auth, p, kind, payload);
          GrowsTransitive(s, s1, NeedAuth(s1, p, kind, payload));
        } else if IsPacket(kind, payload) {
          var src, dst := SrcOf(kind, payload), DstOf(kind, payload);
          ForwardStep(s1, auth, p, kind, payload, src, dst, later);
          GrowsTransitive(s, s1, Forward(s1, p, kind, payload, src, dst, later));
        }
      }
    }
  }

  lemma OnWroteStep(s: Server, auth: bool, t: nat, offset: nat, bytes: seq<byte>)
    requires Inv(s, auth)
    ensures var s' := OnWrote(s, t, offset, bytes); Inv(s', auth) && Grows(s, s')
  {
    OldFramesKept(s, OnWrote(s, t, offset, bytes), auth);
  }

  lemma OnFillResolvedStep(s: Server, auth: bool, t: nat)
    requires Inv(s, auth)
    ensures var s' := OnFillResolved(s, t); Inv(s', auth) && Grows(s, s')
  {
    OldFramesKept(s, OnFillResolved(s, t), auth);
  }

  lemma FinishStep(s: Server, auth: bool, t: nat)
    requires Inv(s, auth) && t < |s.tasks|
    ensures var s' := s.(tasks := s.tasks[t := Finished]); Inv(s', auth) && Grows(s, s')
  {
    OldFramesKept(s, s.(tasks := s.tasks[t := Finished]), auth);
  }

  lemma LoginStep(s: Server, auth: bool, p: nat, username: seq<byte>)
    requires Inv(s, auth) && p < |s.peers|
    ensures var s' := s.(peers := s.peers[p := s.peers[p].(user := Some(username))]); Inv(s', auth) && Grows(s, s')
  {
    var s' := s.(peers := s.peers[p := s.peers[p].(user := Some(username))]);
    OldFramesKept(s, s', auth);
    forall t | 0 <= t < |s.tasks|
      ensures TaskRefs(s', s.tasks[t])
    {
      assert TaskRefs(s, s.tasks[t]);
    }
  }

  lemma OnVerifyResolvedStep(s: Server, auth: bool, t: nat, ok: bool)
    requires Inv(s, auth)
    ensures var s' := OnVerifyResolved(s, t, ok); Inv(s', auth) && Grows(s, s')
  {
    if IsVerifying(s, t) {
      FinishStep(s, auth, t);
      var p, done := s.tasks[t].peer, s.(tasks := s.tasks[t := Finished]);
      hide Inv, Grows, FillsInOrder;
      if ok {
        LoginStep(done, auth, p, s.tasks[t].username);
      } else {
        var f := Info(p, s.peers[p].rinfo, WRONG_PASSWORD);
        SendStep(done, auth, [f, f]);
      }
      GrowsTransitive(s, done, OnVerifyResolved(s, t, ok));
    } else {
      GrowsReflexive(s);
    }
  }

  lemma OnVerifyRejectedStep(s: Server, auth: bool, t: nat, text: string)
    requires Inv(s, auth)
    ensures var s' := OnVerifyRejected(s, t, text); Inv(s', auth) && Grows(s, s')
  {
    if IsVerifying(s, t) {
      FinishStep(s, auth, t);
      var p, done := s.tasks[t].peer, s.(tasks := s.tasks[t := Finished]);
      hide Inv, Grows, FillsInOrder;
      SendStep(done, auth, [Info(p, s.peers[p].rinfo, "Error when login: " + text)]);
      GrowsTransitive(s, done, OnVerifyRejected(s, t, text));
    } else {
      GrowsReflexive(s);
    }
  }

  lemma GrowsReflexive(s: Server)
    ensures Grows(s, s)
  {
  }

  lemma DeleteStep(s: Server, auth: bool, key: Addr)
    requires Inv(s, auth)
    ensures Inv(Delete(s, key), auth) && Grows(s, Delete(s, key))
  {
    OldFramesKept(s, Delete(s, key), auth);
  }

  lemma ClearExpireStep(s: Server, auth: bool, now: int, later: int)
    requires Inv(s, auth)
    ensures Inv(ClearExpire(s, now, later), auth) && Grows(s, ClearExpire(s, now, later))
  {
    OldFramesKept(s, ClearExpire(s, now, later), auth);
  }

  /** What every step keeps, whatever promise, datagram or timer comes next. */
  lemma {:induction false} StepKeepsInv(s: Server, auth: bool, e: Event)
    requires Inv(s, auth)
    ensures Inv(Step(s, auth, e), auth) && Grows(s, Step(s, auth, e))
  {
    match e
    case Datagram(msg, rinfo, now, later) => OnMessageStep(s, auth, msg, rinfo, now, later);
    case Wrote(t, offset, bytes) => OnWroteStep(s, auth, t, offset, bytes);
    case FillResolved(t) => OnFillResolvedStep(s, auth, t);
    case FillRejected(t) =>
      GrowsReflexive(s);
      if IsFilling(s, t) { FinishStep(s, auth, t); }
    case VerifyResolved(t, ok) => OnVerifyResolvedStep(s, auth, t, ok);
    case VerifyRejected(t, text) => OnVerifyRejectedStep(s, auth, t, text);
    case SendFailed(to) => DeleteStep(s, auth, to);
    case Housekeeping(now, later) => ClearExpireStep(s, auth, now, later);
  }

  // ----- runs -----

  function Run(s: Server, auth: bool, events: seq<Event>): (r: Server)
    requires Inv(s, auth)
    ensures Inv(r, auth)
    decreases |events|
  {
    if events == [] then s else
    StepKeepsInv(s, auth, events[0]);
    Run(Step(s, auth, events[0]), auth, events[1..])
  }

  /** Over every run, objects keep what they were given: a challenge is assigned at most once, a user never lost. */
  lemma {:induction false} RunGrows(s: Server, auth: bool, events: seq<Event>)
    requires Inv(s, auth)
    ensures Grows(s, Run(s, auth, events))
    decreases |events|
  {
    hide Grows, Step, Refs, FillsInOrder;
    if events == [] {
      GrowsReflexive(s);
    } else {
      StepKeepsInv(s, auth, events[0]);
      var s1 := Step(s, auth, events[0]);
      RunGrows(s1, auth, events[1..]);
      GrowsTransitive(s, s1, Run(s1, auth, events[1..]));
    }
  }

  /**
   In every run, an AuthMe frame carries a cleared marker and 64 bytes, every one
   of which the random source has written, and two frames for one peer carry the same.
   */
  lemma AuthMeIsFilled(auth: bool, events: seq<Event>, i: nat, j: nat)
    requires var sent := Run(INIT, auth, events).sent;
             i < |sent| && j < |sent| && sent[i].AuthMe? && sent[j].AuthMe?
    ensures var s := Run(INIT, auth, events);
            && |s.sent[i].payload| == 1 + CHALLENGE_LEN && s.sent[i].payload[0] == 0
            && (exists b :: 0 <= b < |s.buffers| && s.buffers[b].Complete() &&
                            s.sent[i].payload[1..] == s.buffers[b].bytes)
            && (s.sent[i].peer == s.sent[j].peer ==> s.sent[i].payload == s.sent[j].payload)
  {
    var s := Run(INIT, auth, events);
    var f, g := s.sent[i], s.sent[j];
    hide Run;
    assert Genuine(s, f) && Genuine(s, g);
    var b := s.peers[f.peer].challenge.value;
    assert f.payload[1..] == s.buffers[b].bytes;
  }

  /** With an auth provider, in every run: who may send, who may be cached, who may be reached by unicast. */
  lemma OnlyUsersForward(events: seq<Event>)
    ensures var s := Run(INIT, true, events);
            && (forall f <- s.sent :: f.Unicast? ==> LoggedIn(s, f.from) && LoggedIn(s, f.peer))
            && (forall f <- s.sent :: f.Flood? ==> LoggedIn(s, f.from))
            && (forall ip <- s.ipCache :: LoggedIn(s, s.ipCache[ip].peer))
  {
    var s := Run(INIT, true, events);
    hide Run;
    forall f <- s.sent
      ensures f.Unicast? ==> LoggedIn(s, f.from) && LoggedIn(s, f.peer)
      ensures f.Flood? ==> LoggedIn(s, f.from)
    {
      assert Admitted(s, f);
    }
  }

  /** A peer without a user has had nothing forwarded: it became a user before, not after, its first packet. */
  lemma StrangersAreNotForwarded(before: seq<Event>, p: nat)
    requires var s := Run(INIT, true, before); p < |s.peers| && s.peers[p].user.None?
    ensures forall f <- Run(INIT, true, before).sent :: (f.Unicast? || f.Flood?) ==> f.from != p
  {
    OnlyUsersForward(before);
  }

  // ----- who is challenged -----

  predicate NewChallenge(s: Server, p: Peer) {
    p.challenge.Some? && |s.buffers| <= p.challenge.value
  }

  /** No marker is cleared, and fills and challenges are only added for new buffers. */
  predicate MarkersKept(s: Server, s': Server) {
    && |s.buffers| <= |s'.buffers|
    && (forall b :: 0 <= b < |s.buffers| ==> s'.buffers[b].marker == s.buffers[b].marker)
    && (forall b :: |s.buffers| <= b < |s'.buffers| ==> s'.buffers[b].marker == 0xFF)
    && (forall t :: 0 <= t < |s'.tasks| && s'.tasks[t].Filling? ==>
          (t < |s.tasks| && s.tasks[t] == s'.tasks[t]) || |s.buffers| <= s'.tasks[t].buffer)
    && (forall p :: 0 <= p < |s'.peers| && s'.peers[p].challenge.Some? ==>
          (p < |s.peers| && s.peers[p].challenge == s'.peers[p].challenge) || NewChallenge(s, s'.peers[p]))
    && (forall p, q :: 0 <= p < q < |s'.peers| && NewChallenge(s, s'.peers[p]) ==>
          s'.peers[p].challenge != s'.peers[q].challenge)
  }

  lemma NeedAuthMarkers(s: Server, p: nat, kind: int, payload: seq<byte>)
    requires Refs(s) && p < |s.peers|
    ensures MarkersKept(s, NeedAuth(s, p, kind, payload))
  {
  }

  lemma GetMarkers(s: Server, rinfo: Addr, now: int)
    requires Refs(s)
    ensures MarkersKept(s, Get(s, rinfo, now).0) && Get(s, rinfo, now).0.buffers == s.buffers
  {
  }

  lemma MarkersTransitive(s: Server, t: Server, u: Server)
    requires MarkersKept(s, t) && MarkersKept(t, u) && t.buffers == s.buffers
    ensures MarkersKept(s, u)
  {
  }

  lemma OnPacketMarkers(s: Server, p: nat, kind: int, payload: seq<byte>, now: int)
    requires Refs(s) && p < |s.peers|
    ensures MarkersKept(s, OnPacket(s, p, kind, payload, now))
  {
  }

  lemma OnMessageMarkers(s: Server, auth: bool, msg: seq<byte>, rinfo: Addr, now: int, later: int)
    requires Refs(s)
    ensures MarkersKept(s, OnMessage(s, auth, msg, rinfo, now, later))
  {
    if msg != [] && !(msg[0] % 128 == PING && msg[0] < 128) {
      GetRefs(s, rinfo, now);
      GetMarkers(s, rinfo, now);
      var (s1, p) := Get(s, rinfo, now);
      NeedAuthMarkers(s1, p, msg[0] % 128, msg[1..]);
      OnPacketMarkers(s1, p, msg[0] % 128, msg[1..], later);
      hide NeedAuth, OnPacket, MarkersKept;
      MarkersTransitive(s, s1, OnMessage(s, auth, msg, rinfo, now, later));
    }
  }

  /** Only a resolved fill clears a marker. */
  lemma {:induction false} StepMarkers(s: Server, auth: bool, e: Event)
    requires Refs(s) && !e.FillResolved?
    ensures MarkersKept(s, Step(s, auth, e))
  {
    match e
    case Datagram(msg, rinfo, now, later) => OnMessageMarkers(s, auth, msg, rinfo, now, later);
    case Wrote(t, offset, bytes) =>
    case FillRejected(t) =>
    case VerifyResolved(t, ok) =>
    case VerifyRejected(t, text) =>
    case SendFailed(to) =>
    case Housekeeping(now, later) =>
  }

  predicate Challenged(sent: seq<Frame>, p: nat) {
    exists i :: 0 <= i < |sent| && sent[i].AuthMe? && sent[i].peer == p
  }

  predicate Filled(s: Server, p: nat)
    requires Refs(s) && p < |s.peers|
  {
    s.peers[p].challenge.Some? && s.buffers[s.peers[p].challenge.value].marker != 0xFF
  }

  /** Every filled challenge has been shown. */
  predicate Shown(s: Server)
    requires Refs(s)
  {
    forall p :: 0 <= p < |s.peers| && Filled(s, p) ==> Challenged(s.sent, p)
  }

  lemma StillChallenged(sent: seq<Frame>, sent': seq<Frame>, p: nat)
    requires sent <= sent' && Challenged(sent, p)
    ensures Challenged(sent', p)
  {
    var i :| 0 <= i < |sent| && sent[i].AuthMe? && sent[i].peer == p;
    assert sent'[i] == sent[i];
  }

  /** Distinct peers have distinct challenges. */
  predicate OwnBuffers(s: Server) {
    forall p, q :: 0 <= p < q < |s.peers| && s.peers[p].challenge.Some? ==> s.peers[p].challenge != s.peers[q].challenge
  }

  lemma ShownKept(s: Server, s': Server)
    requires Refs(s) && Refs(s') && Shown(s) && Grows(s, s') && MarkersKept(s, s')
    ensures Shown(s')
  {
    forall p | 0 <= p < |s'.peers| && Filled(s', p)
      ensures Challenged(s'.sent, p)
    {
      assert s'.peers[p].challenge.value < |s.buffers|;
      assert Filled(s, p);
      StillChallenged(s.sent, s'.sent, p);
    }
  }

  lemma OwnBuffersKept(s: Server, s': Server)
    requires Refs(s) && OwnBuffers(s) && Grows(s, s') && MarkersKept(s, s')
    ensures OwnBuffers(s')
  {
  }

  lemma ResolvedShown(s: Server, auth: bool, t: nat)
    requires Inv(s, auth) && Shown(s) && OwnBuffers(s)
    ensures var s' := OnFillResolved(s, t); Refs(s') && Shown(s') && OwnBuffers(s')
  {
    OnFillResolvedStep(s, auth, t);
    var s' := OnFillResolved(s, t);
    if s' != s {
      forall p | 0 <= p < |s'.peers| && Filled(s', p)
        ensures Challenged(s'.sent, p)
      {
        if p == s.tasks[t].peer {
          assert s'.sent[|s.sent|].AuthMe? && s'.sent[|s.sent|].peer == p;
        } else {
          assert Filled(s, p);
          StillChallenged(s.sent, s'.sent, p);
        }
      }
    }
  }

  lemma {:induction false} RunShown(s: Server, auth: bool, events: seq<Event>)
    requires Inv(s, auth) && Shown(s) && OwnBuffers(s)
    ensures Shown(Run(s, auth, events))
    decreases |events|
  {
    if events != [] {
      StepKeepsInv(s, auth, events[0]);
      var s1 := Step(s, auth, events[0]);
      if events[0].FillResolved? {
        ResolvedShown(s, auth, events[0].task);
      } else {
        StepMarkers(s, auth, events[0]);
        ShownKept(s, s1);
        OwnBuffersKept(s, s1);
      }
      hide Step, Shown, OwnBuffers, Inv, Grows, MarkersKept;
      RunShown(s1, auth, events[1..]);
    }
  }

  lemma ChallengedIsFilled(s: Server, auth: bool, p: nat)
    requires Inv(s, auth) && p < |s.peers|
    ensures Challenged(s.sent, p) ==> Filled(s, p)
  {
    if Challenged(s.sent, p) {
      var i :| 0 <= i < |s.sent| && s.sent[i].AuthMe? && s.sent[i].peer == p;
      assert Genuine(s, s.sent[i]);
    }
  }

  /** In every run, the peers that have been sent a challenge are exactly those whose challenge is filled. */
  lemma ChallengedIffFilled(auth: bool, events: seq<Event>, p: nat)
    requires p < |Run(INIT, auth, events).peers|
    ensures var s := Run(INIT, auth, events); Challenged(s.sent, p) <==> Filled(s, p)
  {
    RunShown(INIT, auth, events);
    var s := Run(INIT, auth, events);
    hide Run;
    ChallengedIsFilled(s, auth, p);
  }

  /** Nothing is left that could clear the marker of this peer's challenge. */
  predicate Abandoned(s: Server, p: nat)
    requires Refs(s)
  {
    && p < |s.peers| && s.peers[p].challenge.Some? && !Filled(s, p)
    && forall t :: 0 <= t < |s.tasks| && s.tasks[t].Filling? ==> s.tasks[t].buffer != s.peers[p].challenge.value
  }

  /** That is how a rejected fill leaves it. */
  lemma RejectedIsAbandoned(s: Server, auth: bool, t: nat)
    requires Inv(s, auth) && IsFilling(s, t)
    ensures var s' := Step(s, auth, FillRejected(t)); Refs(s') && Abandoned(s', s.tasks[t].peer)
  {
    FinishStep(s, auth, t);
  }

  lemma {:induction false} AbandonedKept(s: Server, auth: bool, e: Event, p: nat)
    requires Inv(s, auth) && Abandoned(s, p)
    ensures var s' := Step(s, auth, e); Refs(s') && Abandoned(s', p)
  {
    StepKeepsInv(s, auth, e);
    if !e.FillResolved? {
      StepMarkers(s, auth, e);
      hide Step;
    }
  }

  /** A peer whose fill was rejected is not challenged in any continuation. */
  lemma {:induction false} AbandonedForGood(s: Server, auth: bool, events: seq<Event>, p: nat)
    requires Inv(s, auth) && Abandoned(s, p)
    ensures Abandoned(Run(s, auth, events), p)
    ensures !Challenged(Run(s, auth, events).sent, p)
    decreases |events|
  {
    if events == [] {
      ChallengedIsFilled(s, auth, p);
    } else {
      StepKeepsInv(s, auth, events[0]);
      AbandonedKept(s, auth, events[0], p);
      hide Abandoned, Challenged, Inv, Step;
      AbandonedForGood(Step(s, auth, events[0]), auth, events[1..], p);
    }
  }
}
