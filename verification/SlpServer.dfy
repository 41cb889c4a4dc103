/**
 The class SLPServer of server/src/udpserver.ts on the heap: peers and challenge
 buffers are objects, which the two maps and the suspended async calls hold by
 reference. It is proved to take the steps of UdpServer, where they are numbers.
 */
module SlpServer {
  import opened Bytes
  import opened UdpServer
  import UdpForwarding
  import UdpRegistry
  import UdpRouting

  /** A Node.js Buffer; a challenge has 65 bytes, the first of which is the marker. */
  type Chunk = array<byte>

  class PeerObject {
    const rinfo: Addr
    var user: Option<seq<byte>>
    var challenge: array?<byte>

    constructor (rinfo: Addr)
      ensures this.rinfo == rinfo && user == None && challenge == null
    {
      this.rinfo, user, challenge := rinfo, None, null;
    }
  }

  /** An entry of the manager's map, an entry of the address cache, and a suspended call. */
  datatype Entry = Entry(key: Addr, expireAt: int, peer: PeerObject)
  datatype Cached = Cached(peer: PeerObject, expireAt: int)
  datatype Suspended =
    | Fill(peer: PeerObject, buf: Chunk)
    | Verify(peer: PeerObject, buf: Chunk, username: seq<byte>, response: seq<byte>)
    | Over

  /** A datagram given to the socket: the type byte and the payload. Info texts are left as strings. */
  datatype Datagram = Bytes(to: Addr, bytes: seq<byte>) | Text(to: Addr, text: string)

  function Wire(f: Frame): Datagram {
    match f
    case Pong(to, data) => Bytes(to, data)
    case AuthMe(_, to, payload) => Bytes(to, [AUTH_ME] + payload)
    case Info(_, to, text) => Text(to, text)
    case Unicast(_, _, to, kind, payload) => Bytes(to, [KindByte(kind)] + payload)
    case Flood(_, _, to, kind, payload) => Bytes(to, [KindByte(kind)] + payload)
  }

  function KindByte(kind: int): byte {
    kind % 0x100
  }

  function WireAll(frames: seq<Frame>): (r: seq<Datagram>)
    ensures |r| == |frames| && forall i :: 0 <= i < |frames| ==> r[i] == Wire(frames[i])
  {
    if frames == [] then [] else WireAll(frames[..|frames| - 1]) + [Wire(frames[|frames| - 1])]
  }

  // ----- what the objects stand for -----

  predicate Distinct<T(==)>(s: seq<T>) {
    forall i, j :: 0 <= i < j < |s| ==> s[i] != s[j]
  }

  datatype Fields = Fields(rinfo: Addr, user: Option<seq<byte>>, challenge: array?<byte>)

  /** The present fields of the peer objects. */
  ghost function FieldsOf(peers: seq<PeerObject>): (r: seq<Fields>)
    reads peers
    ensures |r| == |peers|
    ensures forall i :: 0 <= i < |peers| ==> r[i] == Fields(peers[i].rinfo, peers[i].user, peers[i].challenge)
  {
    if peers == [] then [] else
    var p := peers[|peers| - 1];
    FieldsOf(peers[..|peers| - 1]) + [Fields(p.rinfo, p.user, p.challenge)]
  }

  /** They are the fields of the model's peers, a challenge being a reference instead of a number. */
  predicate PeersAre(fields: seq<Fields>, model: seq<Peer>, bufs: seq<Chunk>) {
    |fields| == |model| && forall i :: 0 <= i < |model| ==> PeerIs(fields[i], model[i], bufs)
  }

  predicate PeerIs(f: Fields, m: Peer, bufs: seq<Chunk>) {
    && f.rinfo == m.rinfo && f.user == m.user
    && match m.challenge
       case None => f.challenge == null
       case Some(b) => b < |bufs| && f.challenge == bufs[b]
  }

  /** The present contents of the buffers. */
  ghost function ContentsOf(bufs: seq<Chunk>): (r: seq<seq<byte>>)
    reads bufs
    ensures |r| == |bufs| && forall i :: 0 <= i < |bufs| ==> r[i] == bufs[i][..]
  {
    if bufs == [] then [] else ContentsOf(bufs[..|bufs| - 1]) + [bufs[|bufs| - 1][..]]
  }

  predicate BufsAre(contents: seq<seq<byte>>, model: seq<Buffer>) {
    |contents| == |model| && forall i :: 0 <= i < |model| ==> contents[i] == model[i].Content()
  }

  predicate ManagerIs(manager: seq<Entry>, model: seq<Registered>, peers: seq<PeerObject>) {
    && |manager| == |model|
    && forall i :: 0 <= i < |model| ==>
         model[i].peer < |peers| && manager[i] == Entry(model[i].key, model[i].expireAt, peers[model[i].peer])
  }

  predicate CacheIs(cache: map<Ip, Cached>, model: map<Ip, CacheItem>, peers: seq<PeerObject>) {
    && cache.Keys == model.Keys
    && forall ip <- model :: model[ip].peer < |peers| && cache[ip] == Cached(peers[model[ip].peer], model[ip].expireAt)
  }

  predicate TaskIs(task: Suspended, model: Task, peers: seq<PeerObject>, bufs: seq<Chunk>) {
    match model
    case Filling(p, b) => p < |peers| && b < |bufs| && task == Fill(peers[p], bufs[b])
    case Verifying(p, b, username, response) =>
      p < |peers| && b < |bufs| && task == Verify(peers[p], bufs[b], username, response)
    case Finished => task == Over
  }

  predicate TasksAre(tasks: seq<Suspended>, model: seq<Task>, peers: seq<PeerObject>, bufs: seq<Chunk>) {
    |tasks| == |model| && forall t :: 0 <= t < |model| ==> TaskIs(tasks[t], model[t], peers, bufs)
  }

  /** The same references are good among more objects. */
  lemma MoreObjects(manager: seq<Entry>, cache: map<Ip, Cached>, tasks: seq<Suspended>, s: Server,
                    peers: seq<PeerObject>, peers': seq<PeerObject>, bufs: seq<Chunk>, bufs': seq<Chunk>)
    requires peers <= peers' && bufs <= bufs'
    requires ManagerIs(manager, s.registry, peers) && CacheIs(cache, s.ipCache, peers) &&
      TasksAre(tasks, s.tasks, peers, bufs)
    ensures ManagerIs(manager, s.registry, peers') && CacheIs(cache, s.ipCache, peers') &&
      TasksAre(tasks, s.tasks, peers', bufs')
  {
    forall t | 0 <= t < |s.tasks|
      ensures TaskIs(tasks[t], s.tasks[t], peers', bufs')
    {
      assert TaskIs(tasks[t], s.tasks[t], peers, bufs);
    }
  }

  lemma {:induction false} FieldsSnoc(peers: seq<PeerObject>, p: PeerObject)
    ensures FieldsOf(peers + [p]) == FieldsOf(peers) + [Fields(p.rinfo, p.user, p.challenge)]
  {
    assert (peers + [p])[..|peers|] == peers;
  }

  lemma ManagerSnoc(manager: seq<Entry>, model: seq<Registered>, peers: seq<PeerObject>, peer: PeerObject,
                    e: Registered)
    requires ManagerIs(manager, model, peers + [peer]) && e.peer == |peers|
    ensures ManagerIs(manager + [Entry(e.key, e.expireAt, peer)], model + [e], peers + [peer])
  {
  }

  lemma FieldsCount(fields: seq<Fields>, model: seq<Peer>, bufs: seq<Chunk>)
    requires PeersAre(fields, model, bufs)
    ensures |model| == |fields|
  {
  }

  lemma ManagerDrop(manager: seq<Entry>, model: seq<Registered>, peers: seq<PeerObject>, i: nat)
    requires ManagerIs(manager, model, peers) && i < |model|
    ensures ManagerIs(manager[..i] + manager[i + 1..], model[..i] + model[i + 1..], peers)
  {
  }

  lemma {:induction false} AliveOne(manager: seq<Entry>, model: seq<Registered>, peers: seq<PeerObject>,
                                    alive: seq<Entry>, i: nat, now: int)
    requires ManagerIs(manager, model, peers) && i < |model| && ManagerIs(alive, Alive(model[..i], now), peers)
    ensures i < |manager|
    ensures ManagerIs(if manager[i].expireAt >= now then alive + [manager[i]] else alive,
                      Alive(model[..i + 1], now), peers)
  {
    assert model[..i + 1][..i] == model[..i];
  }

  lemma {:induction false} FieldsAt(peers: seq<PeerObject>, p: nat)
    requires p < |peers|
    ensures FieldsOf(peers)[p] == Fields(peers[p].rinfo, peers[p].user, peers[p].challenge)
  {
    hide FieldsOf;
  }

  lemma {:induction false} PeerAt(fields: seq<Fields>, model: seq<Peer>, bufs: seq<Chunk>, p: nat)
    requires PeersAre(fields, model, bufs) && p < |model|
    ensures |model| == |fields| && PeerIs(fields[p], model[p], bufs)
  {
    hide PeerIs;
  }

  /** A peer object has the fields of the model's peer. */
  lemma {:induction false} SamePeer(peers: seq<PeerObject>, model: seq<Peer>, bufs: seq<Chunk>, p: nat)
    requires PeersAre(FieldsOf(peers), model, bufs) && p < |model|
    ensures |model| == |peers|
    ensures peers[p].rinfo == model[p].rinfo && peers[p].user == model[p].user
    ensures model[p].challenge.None? <==> peers[p].challenge == null
    ensures model[p].challenge.Some? ==>
      model[p].challenge.value < |bufs| && peers[p].challenge == bufs[model[p].challenge.value]
  {
    hide FieldsOf, PeersAre;
    PeerAt(FieldsOf(peers), model, bufs, p);
    FieldsAt(peers, p);
  }

  /** A buffer has the content of the model's buffer. */
  lemma {:induction false} SameBuffer(bufs: seq<Chunk>, model: seq<Buffer>, b: nat)
    requires BufsAre(ContentsOf(bufs), model) && b < |bufs|
    ensures |model| == |bufs| && bufs[b][..] == model[b].Content() && bufs[b].Length == 1 + |model[b].bytes|
    ensures bufs[b][0] == model[b].marker
  {
    hide ContentsOf;
    var c := ContentsOf(bufs)[b];
    assert bufs[b][..][0] == model[b].marker;
  }

  lemma CacheAlive(cache: map<Ip, Cached>, model: map<Ip, CacheItem>, peers: seq<PeerObject>, now: int)
    requires CacheIs(cache, model, peers)
    ensures CacheIs(map ip | ip in cache && cache[ip].expireAt >= now :: cache[ip],
                    map ip | ip in model && model[ip].expireAt >= now :: model[ip], peers)
  {
  }

  lemma TaskRefsKept(s: Server, s': Server)
    requires Refs(s) && s'.peers == s.peers && s'.buffers == s.buffers && s'.tasks == s.tasks &&
      s'.registry == s.registry
    requires forall ip <- s'.ipCache :: s'.ipCache[ip].peer < |s.peers|
    ensures Refs(s')
  {
    forall t | 0 <= t < |s.tasks|
      ensures TaskRefs(s', s.tasks[t])
    {
      assert TaskRefs(s, s.tasks[t]);
    }
  }

  lemma {:induction false} ContentsSnoc(bufs: seq<Chunk>, buf: Chunk)
    ensures ContentsOf(bufs + [buf]) == ContentsOf(bufs) + [buf[..]]
  {
    assert (bufs + [buf])[..|bufs|] == bufs;
  }

  lemma BufsMore(contents: seq<seq<byte>>, model: seq<Buffer>, b: Buffer)
    requires BufsAre(contents, model)
    ensures BufsAre(contents + [b.Content()], model + [b]) && |contents| == |model|
  {
  }

  lemma FieldsChallenged(fields: seq<Fields>, model: seq<Peer>, bufs: seq<Chunk>, buf: Chunk, p: nat)
    requires PeersAre(fields, model, bufs) && p < |model|
    ensures PeersAre(fields[p := fields[p].(challenge := buf)], model[p := model[p].(challenge := Some(|bufs|))],
                     bufs + [buf])
  {
  }

  lemma FieldsLoggedIn(fields: seq<Fields>, model: seq<Peer>, bufs: seq<Chunk>, p: nat, username: seq<byte>)
    requires PeersAre(fields, model, bufs) && p < |model|
    ensures |fields| == |model|
    ensures PeersAre(fields[p := fields[p].(user := Some(username))],
                     model[p := model[p].(user := Some(username))], bufs)
  {
  }

  lemma TasksSnoc(tasks: seq<Suspended>, model: seq<Task>, peers: seq<PeerObject>, bufs: seq<Chunk>, task: Suspended,
                  m: Task)
    requires TasksAre(tasks, model, peers, bufs) && TaskIs(task, m, peers, bufs)
    ensures TasksAre(tasks + [task], model + [m], peers, bufs)
  {
    hide TaskIs;
  }

  lemma TasksOver(tasks: seq<Suspended>, model: seq<Task>, peers: seq<PeerObject>, bufs: seq<Chunk>, t: nat)
    requires TasksAre(tasks, model, peers, bufs) && t < |model|
    ensures t < |tasks| && TasksAre(tasks[t := Over], model[t := Finished], peers, bufs)
  {
  }

  lemma {:induction false} TaskAt(tasks: seq<Suspended>, model: seq<Task>, peers: seq<PeerObject>, bufs: seq<Chunk>,
                                  t: nat)
    requires TasksAre(tasks, model, peers, bufs) && t < |tasks|
    ensures t < |model| && TaskIs(tasks[t], model[t], peers, bufs)
  {
    hide TaskIs;
  }

  lemma {:induction false} ContentsChanged(bufs: seq<Chunk>, contents: seq<seq<byte>>, b: nat)
    requires |contents| == |bufs| && b < |bufs|
    requires forall i :: 0 <= i < |bufs| && i != b ==> contents[i] == bufs[i][..]
    ensures ContentsOf(bufs) == contents[b := bufs[b][..]]
  {
    hide ContentsOf;
  }

  lemma {:induction false} BufsChanged(contents: seq<seq<byte>>, model: seq<Buffer>, b: nat, now: Buffer)
    requires BufsAre(contents, model) && b < |model|
    ensures b < |contents| && BufsAre(contents[b := now.Content()], model[b := now])
  {
  }

  /** After a change to one of several distinct objects, only its fields differ. */
  lemma {:induction false} FieldsChanged(peers: seq<PeerObject>, fields: seq<Fields>, p: nat)
    requires |fields| == |peers| && p < |peers|
    requires forall i :: 0 <= i < |peers| && i != p ==>
      fields[i] == Fields(peers[i].rinfo, peers[i].user, peers[i].challenge)
    ensures FieldsOf(peers) == fields[p := Fields(peers[p].rinfo, peers[p].user, peers[p].challenge)]
  {
    hide FieldsOf;
  }

  lemma {:induction false} WireSnoc(frames: seq<Frame>, f: Frame)
    ensures WireAll(frames + [f]) == WireAll(frames) + [Wire(f)]
  {
    assert (frames + [f])[..|frames|] == frames;
  }

  predicate RefsRegistry(s: Server) {
    forall e <- s.registry :: e.peer < |s.peers|
  }

  lemma MorePeers(fields: seq<Fields>, model: seq<Peer>, bufs: seq<Chunk>, rinfo: Addr)
    requires PeersAre(fields, model, bufs)
    ensures PeersAre(fields + [Fields(rinfo, None, null)], model + [Peer(rinfo, None, None)], bufs)
  {
  }

  method WriteAt(buf: Chunk, offset: nat, bytes: seq<byte>)
    requires offset + |bytes| <= buf.Length
    modifies buf
    ensures buf[..] == Put(old(buf[..]), offset, bytes)
  {
    for k := 0 to |bytes|
      invariant buf[..] == old(buf[..])[..offset] + bytes[..k] + old(buf[..])[offset + k..]
    {
      buf[offset + k] := bytes[k];
    }
  }

  lemma {:induction false} PutContent(marker: byte, s: seq<byte>, offset: nat, bytes: seq<byte>)
    requires offset + |bytes| <= |s|
    ensures Put([marker] + s, 1 + offset, bytes) == [marker] + Put(s, offset, bytes)
  {
  }

  /** One more event is one more step. */
  lemma RunSnoc(auth: bool, events: seq<Event>, e: Event)
    ensures Inv(INIT, auth)
    ensures var s := Run(INIT, auth, events); Refs(s) && Run(INIT, auth, events + [e]) == Step(s, auth, e)
  {
    RunSnocFrom(INIT, auth, events, e);
  }

  /** What the run theorems say about the last event, a permitted packet. */
  lemma LastForwarded(auth: bool, past: seq<Event>, e: Event) returns (s: Server, p: nat)
    requires Inv(INIT, auth) && e.Datagram? && e.msg != []
    requires UdpRouting.Claimed(e.msg).Some? && UdpRouting.Permitted(Run(INIT, auth, past), auth, e.rinfo)
    ensures s == Run(INIT, auth, past) && UdpRouting.Wanted(e.msg).Some?
    ensures var s' := Run(INIT, auth, past + [e]);
            && p < |s'.peers| && s'.peers[p].rinfo == e.rinfo
            && UdpRouting.Claimed(e.msg).value in s'.ipCache
            && s'.ipCache[UdpRouting.Claimed(e.msg).value] == CacheItem(p, e.later + 30000)
            && UdpRouting.Delivered(s.sent, s', p, e.rinfo, e.msg[0] % 128, e.msg[1..], UdpRouting.Wanted(e.msg).value)
  {
    s := Run(INIT, auth, past);
    RunSnoc(auth, past, e);
    UdpForwarding.RunTraced(INIT, auth, [], past);
    UdpRouting.EventBytes(e);
    hide Run, Step, Inv;
    p := UdpRouting.PacketIsForwarded(s, auth, e);
  }

  lemma {:induction false} RunSnocFrom(s: Server, auth: bool, events: seq<Event>, e: Event)
    requires Inv(s, auth)
    ensures Refs(Run(s, auth, events)) && Run(s, auth, events + [e]) == Step(Run(s, auth, events), auth, e)
    decreases |events|
  {
    hide Step;
    StepKeepsInv(s, auth, (events + [e])[0]);
    if events == [] {
      assert events + [e] == [e];
    } else {
      assert (events + [e])[1..] == events[1..] + [e];
      RunSnocFrom(Step(s, auth, events[0]), auth, events[1..], e);
    }
  }

  class SLPServer {
    const auth: bool
    var manager: seq<Entry>
    var ipCache: map<Ip, Cached>
    var pending: seq<Suspended>
    var out: seq<Datagram>
    ghost var events: seq<Event>
    ghost var model: Server
    ghost var peers: seq<PeerObject>
    ghost var bufs: seq<Chunk>

    /** The objects stand for what the events so far make of the initial server, and `out` is what it has sent. */
    ghost predicate Valid()
      reads this, peers, bufs
    {
      Stands() && Inv(INIT, auth) && model == Run(INIT, auth, events)
    }

    ghost predicate Stands()
      reads this, peers, bufs
    {
      && Distinct(peers) && PeersAre(FieldsOf(peers), model.peers, bufs)
      && Distinct(bufs) && BufsAre(ContentsOf(bufs), model.buffers)
      && ManagerIs(manager, model.registry, peers) && CacheIs(ipCache, model.ipCache, peers)
      && TasksAre(pending, model.tasks, peers, bufs)
      && out == WireAll(model.sent)
    }

    constructor (auth: bool)
      ensures this.auth == auth && Valid() && events == []
    {
      this.auth := auth;
      manager, ipCache, pending, out := [], map[], [], [];
      events, model, peers, bufs := [], INIT, [], [];
    }

    /** What was done is one more event. */
    ghost method Record(before: Server, e: Event)
      requires Stands() && Inv(INIT, auth) && before == Run(INIT, auth, events)
      requires Refs(before) && model == Step(before, auth, e)
      modifies `events
      ensures Valid() && events == old(events) + [e]
    {
      hide Step, Inv, Refs, Run, CacheIs, ManagerIs, TasksAre, PeersAre, BufsAre, ContentsOf, FieldsOf, WireAll;
      hide Distinct;
      RunSnoc(auth, events, e);
      events := events + [e];
    }

    method FindKey(key: Addr) returns (i: nat)
      requires ManagerIs(manager, model.registry, peers)
      ensures i == Find(model.registry, key) && |manager| == |model.registry|
    {
      i := 0;
      ghost var k := Find(model.registry, key);
      while i < |manager| && manager[i].key != key
        invariant i <= k
      {
        assert model.registry[i].key == manager[i].key;
        i := i + 1;
      }
      assert i < |manager| ==> model.registry[i].key == manager[i].key;
    }

    /** The first half of PeerManager.get: a new peer for an address the map does not have. */
    method MakePeer(rinfo: Addr, expireAt: int) returns (peer: PeerObject)
      requires Stands() && Inv(model, auth)
      modifies `manager, `peers, `model
      ensures fresh(peer) && peers == old(peers) + [peer]
      ensures manager == old(manager) + [Entry(rinfo, expireAt, peer)]
      ensures model == old(model).(peers := old(model).peers + [Peer(rinfo, None, None)],
                                   registry := old(model).registry + [Registered(rinfo, expireAt, |old(peers)|)])
      ensures Stands()
    {
      hide Inv, CacheIs, TasksAre, PeersAre, BufsAre, ContentsOf, FieldsOf, WireAll, ManagerIs;
      peer := new PeerObject(rinfo);
      MoreObjects(manager, ipCache, pending, model, peers, peers + [peer], bufs, bufs);
      MorePeers(FieldsOf(peers), model.peers, bufs, rinfo);
      FieldsSnoc(peers, peer);
      ManagerSnoc(manager, model.registry, peers, peer, Registered(rinfo, expireAt, |peers|));
      FieldsCount(FieldsOf(peers), model.peers, bufs);
      model := model.(peers := model.peers + [Peer(rinfo, None, None)],
                      registry := model.registry + [Registered(rinfo, expireAt, |peers|)]);
      manager := manager + [Entry(rinfo, expireAt, peer)];
      peers := peers + [peer];
    }

    /** The other half: the entry gets a new expiry. */
    method Refresh(i: nat, expireAt: int)
      requires Stands() && i < |manager| && i < |model.registry|
      modifies `manager, `model
      ensures Stands()
      ensures model == old(model).(registry := old(model).registry[i := old(model).registry[i].(expireAt := expireAt)])
    {
      hide CacheIs, TasksAre, PeersAre, BufsAre, ContentsOf, FieldsOf, WireAll, Distinct;
      manager := manager[i := manager[i].(expireAt := expireAt)];
      model := model.(registry := model.registry[i := model.registry[i].(expireAt := expireAt)]);
    }

    /** PeerManager.get: the peer object for an address, made if need be. */
    method GetPeer(rinfo: Addr, now: int) returns (peer: PeerObject, ghost p: nat)
      requires Stands() && Inv(model, auth)
      modifies `manager, `model, `peers
      ensures Stands() && Inv(model, auth) && (model, p) == Get(old(model), rinfo, now)
      ensures p < |peers| && peers[p] == peer && (peer in old(peers) || fresh(peer))
      ensures p < |model.peers| && peer.user == model.peers[p].user && Refs(model)
    {
      hide Grows, CacheIs, TasksAre, PeersAre, BufsAre, ContentsOf, FieldsOf, WireAll, Distinct;
      assert Refs(model);
      hide Inv;
      GetStep(model, auth, rinfo, now);
      GetRefs(model, rinfo, now);
      hide Refs;
      FieldsCount(FieldsOf(peers), model.peers, bufs);
      var expireAt := now + TIMEOUT;
      var i := FindKey(rinfo);
      if i == |manager| {
        p := |peers|;
        peer := MakePeer(rinfo, expireAt);
      } else {
        peer := manager[i].peer;
        p := model.registry[i].peer;
        Refresh(i, expireAt);
      }
      SamePeer(peers, model.peers, bufs, p);
    }

    /** PeerManager.delete: the map forgets the address; the object lives on wherever else it is held. */
    method DeletePeer(key: Addr)
      requires Valid()
      modifies `manager, `events, `model
      ensures Valid() && events == old(events) + [SendFailed(key)]
    {
      hide Run, Find, ManagerIs, CacheIs, TasksAre, PeersAre, BufsAre, ContentsOf, FieldsOf, WireAll, Distinct;
      assert Refs(model);
      hide Inv, Refs;
      var i := FindKey(key);
      if i < |manager| {
        ManagerDrop(manager, model.registry, peers, i);
        manager := manager[..i] + manager[i + 1..];
        model := model.(registry := model.registry[..i] + model.registry[i + 1..]);
      }
      Record(old(model), SendFailed(key));
    }

    /** clearCacheItem on the manager's map. */
    method AliveEntries(now: int) returns (alive: seq<Entry>)
      requires ManagerIs(manager, model.registry, peers)
      ensures ManagerIs(alive, Alive(model.registry, now), peers)
    {
      alive := [];
      assert |manager| == |model.registry|;
      assert ManagerIs([], Alive(model.registry[..0], now), peers);
      hide ManagerIs, Alive;
      for i := 0 to |manager|
        invariant ManagerIs(alive, Alive(model.registry[..i], now), peers)
      {
        AliveOne(manager, model.registry, peers, alive, i, now);
        if manager[i].expireAt >= now {
          alive := alive + [manager[i]];
        }
      }
      assert model.registry[..|manager|] == model.registry;
    }

    /** clearExpire, on both maps; each reads the clock. */
    method ClearExpired(now: int, later: int)
      requires Valid()
      modifies `manager, `ipCache, `events, `model
      ensures Valid() && events == old(events) + [Housekeeping(now, later)]
    {
      hide Run, TasksAre, PeersAre, BufsAre, ContentsOf, FieldsOf, WireAll, Distinct, ManagerIs, CacheIs, Alive;
      assert Refs(model);
      hide Inv, Refs;
      manager := AliveEntries(now);
      CacheAlive(ipCache, model.ipCache, peers, later);
      ipCache := map ip | ip in ipCache && ipCache[ip].expireAt >= later :: ipCache[ip];
      model := ClearExpire(model, now, later);
      Record(old(model), Housekeeping(now, later));
    }

    /** sendBroadcast: every peer in the map but the sender, in insertion order. */
    method SendBroadcast(except: PeerObject, ghost p: nat, kind: int, payload: seq<byte>)
      requires Stands() && Refs(model) && p < |peers| && peers[p] == except && p < |model.peers|
      modifies `out, `model
      ensures Stands() && model == Send(old(model), FloodFrames(old(model), old(model).registry, p, kind, payload))
    {
      hide PeersAre, PeerIs, CacheIs, TasksAre, BufsAre, ContentsOf, FieldsOf, WireAll, Distinct, Refs, TaskRefs;
      ghost var s, sent := model, model.sent;
      ghost var frames: seq<Frame> := [];
      SamePeer(peers, s.peers, bufs, p);
      assert s.registry[..0] == [];
      for i := 0 to |manager|
        invariant model == s && RefsRegistry(s)
        invariant frames == FloodFrames(s, s.registry[..i], p, kind, payload)
        invariant out == WireAll(sent + frames)
      {
        assert s.registry[..i + 1][..i] == s.registry[..i];
        var e := manager[i];
        SamePeer(peers, s.peers, bufs, s.registry[i].peer);
        if e.key != except.rinfo {
          ghost var f := Flood(p, s.registry[i].peer, s.peers[s.registry[i].peer].rinfo, kind, payload);
          WireSnoc(sent + frames, f);
          assert sent + frames + [f] == sent + (frames + [f]);
          frames := frames + [f];
          out := out + [Bytes(e.peer.rinfo, [KindByte(kind)] + payload)];
        }
      }
      assert s.registry[..|manager|] == s.registry;
      model := Send(model, frames);
    }

    /** ipCache.set. */
    method Remember(src: Ip, peer: PeerObject, ghost p: nat, expireAt: int)
      requires Stands() && p < |peers| && peers[p] == peer
      modifies `ipCache, `model
      ensures Stands() && model == old(model).(ipCache := old(model).ipCache[src := CacheItem(p, expireAt)])
    {
      hide ManagerIs, TasksAre, BufsAre, ContentsOf, FieldsOf, PeersAre, WireAll, Distinct;
      ipCache := ipCache[src := Cached(peer, expireAt)];
      model := model.(ipCache := model.ipCache[src := CacheItem(p, expireAt)]);
    }

    /** sendTo, for a frame of the model. */
    method Transmit(d: Datagram, ghost f: Frame)
      requires Stands() && d == Wire(f)
      modifies `out, `model
      ensures Stands() && model == Send(old(model), [f])
    {
      hide ManagerIs, CacheIs, TasksAre, BufsAre, ContentsOf, FieldsOf, PeersAre, WireAll, Distinct;
      WireSnoc(model.sent, f);
      out := out + [d];
      model := Send(model, [f]);
    }

    /** onIpv4 and onIpv4Frag, once the two addresses are read. */
    method OnIpv4(peer: PeerObject, ghost p: nat, kind: int, payload: seq<byte>, src: Ip, dst: Ip, now: int)
      requires Stands() && Refs(model) && p < |peers| && peers[p] == peer && p < |model.peers|
      modifies `ipCache, `out, `model
      ensures Stands() && model == Forward(old(model), p, kind, payload, src, dst, now)
    {
      hide ManagerIs, TasksAre, TaskRefs, BufsAre, ContentsOf, FieldsOf, PeersAre, WireAll, Distinct, FloodFrames;
      Remember(src, peer, p, now + TIMEOUT);
      TaskRefsKept(old(model), model);
      if dst in ipCache {
        ghost var to := model.ipCache[dst].peer;
        SamePeer(peers, model.peers, bufs, to);
        Transmit(Bytes(ipCache[dst].peer.rinfo, [KindByte(kind)] + payload),
                 Unicast(p, to, model.peers[to].rinfo, kind, payload));
      } else {
        hide Refs, CacheIs;
        SendBroadcast(peer, p, kind, payload);
      }
    }

    /** The first challenge of a peer: the buffer is shared by the peer and the suspended fill. */
    method StartFill(peer: PeerObject, ghost p: nat)
      requires Stands() && p < |peers| && peers[p] == peer && p < |model.peers|
      modifies `pending, `model, `bufs, peer`challenge
      ensures Stands() && peers == old(peers)
      ensures var s, b := old(model), |old(model).buffers|;
              model == s.(peers := s.peers[p := s.peers[p].(challenge := Some(b))],
                          buffers := s.buffers + [Buffer(0xFF, Blank(), {})],
                          tasks := s.tasks + [Filling(p, b)])
      ensures forall b <- bufs :: b in old(bufs) || fresh(b)
    {
      hide CacheIs, ManagerIs, TasksAre, PeersAre, WireAll, BufsAre, ContentsOf, FieldsOf;
      ghost var fields, b, blank := FieldsOf(peers), |bufs|, Buffer(0xFF, Blank(), {});
      var buf := new byte[1 + CHALLENGE_LEN](i => if i == 0 then 0xFF else 0);
      assert buf[..] == blank.Content();
      peer.challenge := buf;
      FieldsChanged(peers, fields, p);
      ContentsSnoc(bufs, buf);
      BufsMore(ContentsOf(bufs), model.buffers, blank);
      MoreObjects(manager, ipCache, pending, model, peers, peers, bufs, bufs + [buf]);
      FieldsChallenged(fields, model.peers, bufs, buf, p);
      TasksSnoc(pending, model.tasks, peers, bufs + [buf], Fill(peer, buf), Filling(p, b));
      pending := pending + [Fill(peer, buf)];
      bufs := bufs + [buf];
      model := model.(peers := model.peers[p := model.peers[p].(challenge := Some(b))],
                      buffers := model.buffers + [blank],
                      tasks := model.tasks + [Filling(p, b)]);
    }

    /** An async call suspends: its continuation holds the peer and the buffer. */
    method Suspend(task: Suspended, ghost m: Task)
      requires Stands() && TaskIs(task, m, peers, bufs)
      modifies `pending, `model
      ensures Stands() && model == old(model).(tasks := old(model).tasks + [m])
    {
      hide ManagerIs, CacheIs, TasksAre, BufsAre, ContentsOf, FieldsOf, PeersAre, WireAll, Distinct;
      TasksSnoc(pending, model.tasks, peers, bufs, task, m);
      pending := pending + [task];
      model := model.(tasks := model.tasks + [m]);
    }

    /** onNeedAuth up to its first await. */
    method OnNeedAuth(peer: PeerObject, ghost p: nat, kind: int, payload: seq<byte>)
      requires Stands() && Inv(model, auth) && p < |peers| && peers[p] == peer && p < |model.peers|
      modifies `pending, `model, `bufs, `out, peer`challenge
      ensures Stands() && peers == old(peers) && model == NeedAuth(old(model), p, kind, payload)
      ensures forall b <- bufs :: b in old(bufs) || fresh(b)
    {
      hide Inv, CacheIs, ManagerIs, TasksAre, PeersAre, WireAll, BufsAre, ContentsOf, FieldsOf, Distinct;
      SamePeer(peers, model.peers, bufs, p);
      if kind == AUTH_ME {
        if peer.challenge != null && |payload| > 20 {
          Suspend(Verify(peer, peer.challenge, payload[20..], payload[..20]),
                  Verifying(p, model.peers[p].challenge.value, payload[20..], payload[..20]));
        }
      } else if peer.challenge == null {
        StartFill(peer, p);
      } else {
        ghost var b := model.peers[p].challenge.value;
        SameBuffer(bufs, model.buffers, b);
        if peer.challenge[0] != 0xFF {
          Transmit(Bytes(peer.rinfo, [AUTH_ME] + peer.challenge[..]),
                   AuthMe(p, model.peers[p].rinfo, model.buffers[b].Content()));
        }
      }
    }

    /** A continuation has run to its end. */
    method Finish(t: nat)
      requires Stands() && t < |pending| && t < |model.tasks|
      modifies `pending, `model
      ensures Stands() && model == old(model).(tasks := old(model).tasks[t := Finished])
    {
      hide ManagerIs, CacheIs, TasksAre, BufsAre, ContentsOf, FieldsOf, PeersAre, WireAll, Distinct;
      TasksOver(pending, model.tasks, peers, bufs, t);
      pending := pending[t := Over];
      model := model.(tasks := model.tasks[t := Finished]);
    }

    /** randomFill writes some bytes of the buffer that the suspended call and the peer share. */
    method RandomWrites(t: nat, offset: nat, bytes: seq<byte>)
      requires Valid() && t < |pending| && pending[t].Fill? && offset + |bytes| <= CHALLENGE_LEN
      modifies `events, `model, bufs
      ensures Valid() && events == old(events) + [Wrote(t, offset, bytes)]
    {
      hide Run, CacheIs, ManagerIs, TasksAre, PeersAre, WireAll, BufsAre, ContentsOf, FieldsOf;
      var buf := pending[t].buf;
      ghost var contents := ContentsOf(bufs);
      TaskAt(pending, model.tasks, peers, bufs, t);
      ghost var b := model.tasks[t].buffer;
      ghost var was := model.buffers[b];
      SameBuffer(bufs, model.buffers, b);
      assert Refs(model) && TaskRefs(model, model.tasks[t]);
      hide Inv, Range, Put;
      PutContent(was.marker, was.bytes, offset, bytes);
      WriteAt(buf, 1 + offset, bytes);
      ghost var now := Buffer(was.marker, Put(was.bytes, offset, bytes), was.written + Range(offset, |bytes|));
      ContentsChanged(bufs, contents, b);
      BufsChanged(contents, model.buffers, b, now);
      model := OnWrote(model, t, offset, bytes);
      Record(old(model), Wrote(t, offset, bytes));
    }

    /** The random source has written every byte this call waits for. */
    ghost predicate AllWritten(t: nat)
      reads this
    {
      && IsFilling(model, t) && model.tasks[t].buffer < |model.buffers|
      && model.buffers[model.tasks[t].buffer].Complete()
    }

    /** buf.writeUInt8(0, 0). */
    method ClearMarker(buf: Chunk, ghost b: nat)
      requires Stands() && b < |bufs| && bufs[b] == buf && b < |model.buffers|
      modifies `model, buf
      ensures Stands()
      ensures model == old(model).(buffers := old(model).buffers[b := old(model).buffers[b].(marker := 0)])
    {
      hide CacheIs, ManagerIs, TasksAre, PeersAre, WireAll, BufsAre, ContentsOf, FieldsOf;
      ghost var contents, now := ContentsOf(bufs), model.buffers[b].(marker := 0);
      SameBuffer(bufs, model.buffers, b);
      buf[0] := 0;
      assert buf[..] == now.Content();
      ContentsChanged(bufs, contents, b);
      BufsChanged(contents, model.buffers, b, now);
      model := model.(buffers := model.buffers[b := now]);
    }

    /** The rest of onNeedAuth once the buffer is filled. */
    method AfterFill(t: nat)
      requires Valid() && t < |pending| && pending[t].Fill?
      requires AllWritten(t)
      modifies `pending, `out, `events, `model, bufs
      ensures Valid() && events == old(events) + [FillResolved(t)]
    {
      hide Run, CacheIs, ManagerIs, TasksAre, PeersAre, WireAll, BufsAre, ContentsOf, FieldsOf, Distinct;
      var peer, buf := pending[t].peer, pending[t].buf;
      TaskAt(pending, model.tasks, peers, bufs, t);
      ghost var p, b := model.tasks[t].peer, model.tasks[t].buffer;
      ghost var now := model.buffers[b].(marker := 0);
      SamePeer(peers, model.peers, bufs, p);
      assert Refs(model) && TaskRefs(model, model.tasks[t]);
      hide Inv;
      ClearMarker(buf, b);
      SameBuffer(bufs, model.buffers, b);
      Finish(t);
      Transmit(Bytes(peer.rinfo, [AUTH_ME] + peer.challenge[..]), AuthMe(p, model.peers[p].rinfo, now.Content()));
      Record(old(model), FillResolved(t));
    }

    /** peer.user = new User(username), through the reference the continuation holds. */
    method Login(peer: PeerObject, ghost p: nat, username: seq<byte>)
      requires Stands() && p < |peers| && peers[p] == peer && p < |model.peers|
      modifies `model, peer`user
      ensures Stands() &&
        model == old(model).(peers := old(model).peers[p := old(model).peers[p].(user := Some(username))])
    {
      hide CacheIs, ManagerIs, TasksAre, PeersAre, WireAll, BufsAre, ContentsOf, FieldsOf;
      ghost var fields := FieldsOf(peers);
      peer.user := Some(username);
      FieldsChanged(peers, fields, p);
      FieldsLoggedIn(fields, model.peers, bufs, p, username);
      model := model.(peers := model.peers[p := model.peers[p].(user := Some(username))]);
    }

    /** The rest of onNeedAuth once verify has answered: the peer object logs in, or is told so twice. */
    method AfterVerify(t: nat, ok: bool)
      requires Valid() && t < |pending| && pending[t].Verify?
      modifies `pending, `out, `events, `model, peers`user
      ensures Valid() && events == old(events) + [VerifyResolved(t, ok)]
    {
      hide Run, CacheIs, ManagerIs, TasksAre, PeersAre, WireAll, BufsAre, ContentsOf, FieldsOf;
      var peer, username := pending[t].peer, pending[t].username;
      TaskAt(pending, model.tasks, peers, bufs, t);
      ghost var p := model.tasks[t].peer;
      assert Refs(model) && TaskRefs(model, model.tasks[t]);
      SamePeer(peers, model.peers, bufs, p);
      hide Inv;
      Finish(t);
      if ok {
        Login(peer, p, username);
      } else {
        ghost var f := Info(p, model.peers[p].rinfo, WRONG_PASSWORD);
        Transmit(Text(peer.rinfo, WRONG_PASSWORD), f);
        Transmit(Text(peer.rinfo, WRONG_PASSWORD), f);
        assert old(model).sent + [f] + [f] == old(model).sent + [f, f];
      }
      Record(old(model), VerifyResolved(t, ok));
    }

    /** randomFill throws: nothing is left that would clear the marker. */
    method FillThrows(t: nat)
      requires Valid() && t < |pending| && pending[t].Fill?
      modifies `pending, `events, `model
      ensures Valid() && events == old(events) + [FillRejected(t)]
    {
      hide Run, CacheIs, ManagerIs, TasksAre, PeersAre, WireAll, BufsAre, ContentsOf, FieldsOf, Distinct;
      TaskAt(pending, model.tasks, peers, bufs, t);
      hide Inv;
      Finish(t);
      Record(old(model), FillRejected(t));
    }

    /** verify throws or times out: the peer is told why. */
    method VerifyThrows(t: nat, text: string)
      requires Valid() && t < |pending| && pending[t].Verify?
      modifies `pending, `out, `events, `model
      ensures Valid() && events == old(events) + [VerifyRejected(t, text)]
    {
      hide Run, CacheIs, ManagerIs, TasksAre, PeersAre, WireAll, BufsAre, ContentsOf, FieldsOf, Distinct;
      var peer := pending[t].peer;
      TaskAt(pending, model.tasks, peers, bufs, t);
      assert TaskRefs(model, model.tasks[t]);
      ghost var p := model.tasks[t].peer;
      SamePeer(peers, model.peers, bufs, p);
      hide Inv;
      Finish(t);
      Transmit(Text(peer.rinfo, "Error when login: " + text),
               Info(p, model.peers[p].rinfo, "Error when login: " + text));
      Record(old(model), VerifyRejected(t, text));
    }

    /** onPacket. */
    method OnPacketFrom(peer: PeerObject, ghost p: nat, kind: int, payload: seq<byte>, now: int)
      requires Stands() && Refs(model) && p < |peers| && peers[p] == peer && p < |model.peers|
      modifies `ipCache, `out, `model
      ensures Stands() && model == OnPacket(old(model), p, kind, payload, now)
    {
      hide Stands, Refs, Forward;
      if (kind == IPV4 || kind == IPV4_FRAG) && |payload| > 20 {
        if kind == IPV4 {
          OnIpv4(peer, p, kind, payload, payload[12..16], payload[16..20], now);
        } else {
          OnIpv4(peer, p, kind, payload, payload[0..4], payload[4..8], now);
        }
      }
    }

    /** onMessage. */
    method OnDatagram(msg: seq<byte>, rinfo: Addr, now: int, later: int)
      requires Valid()
      modifies this, peers`challenge
      ensures Valid() && events == old(events) + [Event.Datagram(msg, rinfo, now, later)]
    {
      hide Run, Stands;
      assert Refs(model);
      hide Inv, Refs;
      if msg != [] {
        var kind := msg[0] % 128;
        if kind == PING && msg[0] < 128 {
          ghost var f := Pong(rinfo, if |msg| < 4 then msg else msg[..4]);
          Transmit(Bytes(rinfo, if |msg| < 4 then msg else msg[..4]), f);
        } else {
          var peer; ghost var p;
          peer, p := GetPeer(rinfo, now);
          if auth && peer.user.None? {
            OnNeedAuth(peer, p, kind, msg[1..]);
          } else {
            OnPacketFrom(peer, p, kind, msg[1..], later);
          }
        }
      }
      Record(old(model), Event.Datagram(msg, rinfo, now, later));
    }

    /** With an auth provider, every peer object the cache holds has logged in. */
    lemma CachedHaveUsers()
      requires Valid() && auth
      ensures forall ip <- ipCache :: ipCache[ip].peer.user.Some?
    {
      OnlyUsersForward(events);
      assert model == Run(INIT, true, events);
      hide Run, Inv, ManagerIs, TasksAre, PeersAre, BufsAre, ContentsOf, FieldsOf, WireAll, Distinct;
      forall ip <- ipCache
        ensures ipCache[ip].peer.user.Some?
      {
        assert ip in model.ipCache && LoggedIn(model, model.ipCache[ip].peer);
        SamePeer(peers, model.peers, bufs, model.ipCache[ip].peer);
      }
    }

    /** A suspended call and its peer share one buffer, so what the peer shows after the await is what was filled. */
    lemma SuspendedShareBuffer(t: nat)
      requires Valid() && t < |pending| && pending[t] != Over
      ensures pending[t].peer.challenge == pending[t].buf
    {
      hide Run, FillsInOrder, CacheIs, ManagerIs, TasksAre, PeersAre, BufsAre, ContentsOf, FieldsOf, WireAll, Distinct;
      TaskAt(pending, model.tasks, peers, bufs, t);
      assert TaskRefs(model, model.tasks[t]);
      SamePeer(peers, model.peers, bufs, model.tasks[t].peer);
    }

    /** A cache entry refers to the object of the model's peer. */
    lemma CachedObject(ip: Ip)
      requires Stands() && (ip in ipCache || ip in model.ipCache)
      ensures ip in ipCache && ip in model.ipCache && model.ipCache[ip].peer < |model.peers|
      ensures ipCache[ip].peer.rinfo == model.peers[model.ipCache[ip].peer].rinfo
      ensures ipCache[ip].expireAt == model.ipCache[ip].expireAt
    {
      hide ManagerIs, TasksAre, BufsAre, ContentsOf, WireAll, Distinct;
      var p := model.ipCache[ip].peer;
      assert FieldsOf(peers)[p].rinfo == peers[p].rinfo;
    }

    lemma RegisteredKey(entry: Entry) returns (r: Registered)
      requires Stands() && entry in manager
      ensures r in model.registry && r.key == entry.key
    {
      hide CacheIs, TasksAre, PeersAre, BufsAre, ContentsOf, FieldsOf, WireAll, Distinct;
      var k :| 0 <= k < |manager| && manager[k] == entry;
      r := model.registry[k];
    }

    lemma OutIsWire()
      requires Stands()
      ensures |out| == |model.sent| && forall j :: 0 <= j < |out| ==> out[j] == Wire(model.sent[j])
    {
      hide CacheIs, ManagerIs, TasksAre, PeersAre, BufsAre, ContentsOf, FieldsOf, Distinct;
    }

    /**
     The last call, if it was a permitted packet's, has left its sender's object in
     the cache under the source in its bytes, and has sent the packet on to the object
     cached for the destination in its bytes, or else to every other registered address.
     */
    lemma LastIsRouted(past: seq<Event>, e: Event)
      requires Valid() && events == past + [e] && e.Datagram? && e.msg != []
      requires UdpRouting.Claimed(e.msg).Some? && UdpRouting.Wanted(e.msg).Some?
      requires UdpRouting.Permitted(Run(INIT, auth, past), auth, e.rinfo)
      ensures var src, dst := UdpRouting.Claimed(e.msg).value, UdpRouting.Wanted(e.msg).value;
              var packet: seq<byte>, n := [e.msg[0] % 128] + e.msg[1..], |Run(INIT, auth, past).sent|;
              && src in ipCache && ipCache[src].peer.rinfo == e.rinfo && ipCache[src].expireAt == e.later + 30000
              && n <= |out|
              && (dst in ipCache ==> out[n..] == [Bytes(ipCache[dst].peer.rinfo, packet)])
              && (dst !in ipCache ==>
                    forall entry <- manager :: entry.key != e.rinfo ==> Bytes(entry.key, packet) in out[n..])
    {
      hide Step, Run, Inv, Stands, UdpRouting.Claimed, UdpRouting.Wanted, UdpRouting.Permitted;
      var s, p := LastForwarded(auth, past, e);
      var src, dst := UdpRouting.Claimed(e.msg).value, UdpRouting.Wanted(e.msg).value;
      CachedObject(src);
      OutIsWire();
      if dst in ipCache || dst in model.ipCache {
        CachedObject(dst);
      }
      var n := |s.sent|;
      if dst !in ipCache {
        forall entry <- manager | entry.key != e.rinfo
          ensures Bytes(entry.key, [e.msg[0] % 128] + e.msg[1..]) in out[n..]
        {
          var r := RegisteredKey(entry);
          var j :| n <= j < |model.sent| && model.sent[j] == Flood(p, r.peer, r.key, e.msg[0] % 128, e.msg[1..]);
          assert out[n..][j - n] == Wire(model.sent[j]);
        }
      }
    }

    /**
     Over every run of calls, a packet the server has sent is a datagram it
     received, byte for byte but for the flag in the top bit of the first one.
     */
    lemma SentIsReceived(i: nat)
      requires Valid() && i < |out| && out[i].Bytes? && |out[i].bytes| > 0 && out[i].bytes[0] in {1, 3}
      ensures exists k :: && 0 <= k < |events| && events[k].Datagram? && events[k].msg != []
                          && out[i].bytes == [events[k].msg[0] % 128] + events[k].msg[1..]
    {
      hide Inv, CacheIs, ManagerIs, TasksAre, PeersAre, BufsAre, ContentsOf, FieldsOf, Distinct, Run;
      var f := model.sent[i];
      assert out[i] == Wire(f);
      UdpRegistry.RunPongs(INIT, auth, events);
      assert f in model.sent;
      assert f.Unicast? || f.Flood?;
      UdpForwarding.ForwardedIsReceived(auth, events, i);
      var k :| 0 <= k < |events| && UdpForwarding.PacketEvent(events[k])
        && events[k].msg[0] % 128 == f.kind && events[k].msg[1..] == f.payload;
    }
  }
}
