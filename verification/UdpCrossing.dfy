/**
 A packet's whole way over the public relay server: cut by the sender's client,
 routed datagram by datagram, put together by the receiver's.
 */
module UdpCrossing {
  import opened Bytes
  import opened Fragments
  import opened Reassembly
  import opened Transit
  import opened UdpBytes
  import UdpServer
  import UdpForwarding
  import opened UdpRouting

  /** The source and destination of an IPv4 packet. */
  function From(packet: seq<byte>): Ip
    requires |packet| >= 20
  {
    packet[12..16]
  }

  function To(packet: seq<byte>): Ip
    requires |packet| >= 20
  {
    packet[16..20]
  }

  /** The server takes a fragment for what the whole packet is, unless it carries four bytes or less. */
  lemma CutAddresses(packet: seq<byte>, pmtu: nat, id: u16, i: nat)
    requires Cuttable(packet, pmtu) && 1 < PartCount(|packet|, pmtu) && i < PartCount(|packet|, pmtu)
    ensures |packet| >= 20 && i * pmtu < |packet| && |Datagrams(packet, pmtu, id)| == PartCount(|packet|, pmtu)
    ensures var d := Datagrams(packet, pmtu, id)[i];
            if PartLen(|packet|, pmtu, i) > 4 then Claimed(d) == Some(From(packet)) && Wanted(d) == Some(To(packet))
            else Claimed(d) == None
    ensures Datagrams(packet, pmtu, id)[i] != [] && Datagrams(packet, pmtu, id)[i][0] == LAN_CLIENT_TYPE_IPV4_FRAG
  {
    CuttableParts(packet, pmtu);
    PartAt(packet, pmtu, i);
    CutStep(packet, pmtu, id, i);
    CutPrefix(packet, pmtu, id, i + 1, PartCount(|packet|, pmtu));
    hide PartCount, PartStart, Cut;
    var d := Datagrams(packet, pmtu, id)[i];
    var pos, next := PartStart(|packet|, pmtu, i), PartStart(|packet|, pmtu, i + 1);
    var header := Header(packet[12..16], packet[16..20], id, i, PartCount(|packet|, pmtu), next - pos, pmtu);
    assert d == [LAN_CLIENT_TYPE_IPV4_FRAG] + (Encode(header) + packet[pos..next]);
    assert Encode(header)[0..4] == header.src && Encode(header)[4..8] == header.dst;
    hide Encode;
    assert d[1..5] == Encode(header)[0..4] && d[5..9] == Encode(header)[4..8];
  }

  lemma {:induction false} CutPrefix(packet: seq<byte>, pmtu: nat, id: u16, m: nat, n: nat)
    requires Cuttable(packet, pmtu) && 1 < PartCount(|packet|, pmtu) && m <= n <= PartCount(|packet|, pmtu)
    ensures Cut(packet, pmtu, id, n)[..m] == Cut(packet, pmtu, id, m)
    decreases n
  {
    if m < n {
      CutPrefix(packet, pmtu, id, m, n - 1);
      hide Part, PartCount;
    }
  }

  /** What is left for the last part when the others are full. */
  function Rest(len: nat, pmtu: nat): nat {
    if pmtu == 0 || PartCount(len, pmtu) <= 1 then len
    else if len % pmtu == 0 then pmtu else len % pmtu
  }

  lemma FullPartLen(packet: seq<byte>, pmtu: nat, i: nat)
    requires Cuttable(packet, pmtu) && i + 1 < PartCount(|packet|, pmtu)
    ensures i * pmtu <= |packet| && PartLen(|packet|, pmtu, i) == pmtu
  {
    var n := PartCount(|packet|, pmtu);
    PartsCover(|packet|, pmtu, n - 1);
    hide PartCount;
    MulLe(i + 1, n - 1, pmtu);
    assert (i + 1) * pmtu == i * pmtu + pmtu;
  }

  lemma LastPartLen(packet: seq<byte>, pmtu: nat)
    requires Cuttable(packet, pmtu) && 1 < PartCount(|packet|, pmtu)
    ensures var n := PartCount(|packet|, pmtu);
            (n - 1) * pmtu <= |packet| && PartLen(|packet|, pmtu, n - 1) == Rest(|packet|, pmtu)
  {
    var len, n := |packet|, PartCount(|packet|, pmtu);
    var q, r := len / pmtu, len % pmtu;
    assert len == pmtu * q + r;
    assert n == if r == 0 then q else q + 1;
    hide PartCount;
    Swapped(pmtu, q);
    if r == 0 {
      assert (n - 1) * pmtu == q * pmtu - pmtu;
    }
  }

  lemma Swapped(a: nat, b: nat)
    ensures a * b == b * a
  {
  }

  /** The server can tell source and destination of every datagram of the packet. */
  predicate AllAddressed(ds: seq<seq<byte>>) {
    forall d <- ds :: Claimed(d).Some?
  }

  /**
   The server routes all datagrams of a packet if and only if the packet is
   longer than a bare header and more than four bytes are left for its last part.
   */
  lemma {:induction false} AllAddressedIff(packet: seq<byte>, pmtu: nat, id: u16)
    requires pmtu == 0 || Cuttable(packet, pmtu)
    ensures AllAddressed(Datagrams(packet, pmtu, id)) <==> |packet| > 20 && Rest(|packet|, pmtu) > 4
  {
    var ds := Datagrams(packet, pmtu, id);
    if pmtu > 0 && PartCount(|packet|, pmtu) > 1 {
      var n := PartCount(|packet|, pmtu);
      CuttableParts(packet, pmtu);
      LastPartLen(packet, pmtu);
      CutAddresses(packet, pmtu, id, n - 1);
      hide Datagrams, Claimed, Wanted, PartLen, Rest, PartCount;
      assert ds[n - 1] in ds;
      if Rest(|packet|, pmtu) > 4 {
        forall i | 0 <= i < n
          ensures Claimed(ds[i]).Some?
        {
          if i < n - 1 {
            FullPartLen(packet, pmtu, i);
          }
          CutAddresses(packet, pmtu, id, i);
        }
      }
    } else {
      var d: seq<byte> := [LAN_CLIENT_TYPE_IPV4] + packet;
      assert ds == [d] && ds[0] == d && d[0] == 1;
      assert Claimed(d).Some? <==> |packet| > 20;
    }
  }

  /** Then they all claim the packet's source and want its destination. */
  lemma {:induction false} DatagramAddresses(packet: seq<byte>, pmtu: nat, id: u16, i: nat)
    requires (pmtu == 0 || Cuttable(packet, pmtu)) && |packet| > 20 && Rest(|packet|, pmtu) > 4
    requires i < |Datagrams(packet, pmtu, id)|
    ensures Addressed(Datagrams(packet, pmtu, id)[i], From(packet), To(packet))
  {
    var d := Datagrams(packet, pmtu, id)[i];
    if pmtu > 0 && PartCount(|packet|, pmtu) > 1 {
      CuttableParts(packet, pmtu);
      if i + 1 < PartCount(|packet|, pmtu) {
        FullPartLen(packet, pmtu, i);
      } else {
        LastPartLen(packet, pmtu);
      }
      CutAddresses(packet, pmtu, id, i);
    } else {
      assert d == [LAN_CLIENT_TYPE_IPV4] + packet;
      assert d[13..17] == packet[12..16] && d[17..21] == packet[16..20];
    }
  }

  // ------------------------------------------------------- over the server

  /** The datagrams arrive at the server one after the other from one address. */
  predicate Sends(events: seq<UdpServer.Event>, ds: seq<seq<byte>>, rinfo: UdpServer.Addr) {
    && |events| == |ds|
    && forall i :: 0 <= i < |ds| ==> events[i].Datagram? && events[i].msg == ds[i] && events[i].rinfo == rinfo
  }

  /** A unicast frame as it goes out: the type byte and the payload. */
  function Outgoing(f: UdpServer.Frame): seq<byte>
    requires f.Unicast? && 0 <= f.kind < 0x100
  {
    [f.kind] + f.payload
  }

  /** The frame is this datagram, to this address. */
  predicate Carries(f: UdpServer.Frame, d: seq<byte>, to: UdpServer.Addr) {
    f.Unicast? && f.to == to && 0 <= f.kind < 0x100 && Outgoing(f) == d
  }

  /** The frames that are sent from position n on are exactly these datagrams, to this address. */
  predicate SentOn(sent: seq<UdpServer.Frame>, n: nat, ds: seq<seq<byte>>, to: UdpServer.Addr) {
    |sent| == n + |ds| && forall i :: 0 <= i < |ds| ==> Carries(sent[n + i], ds[i], to)
  }

  /** The server reads these two addresses in the datagram. */
  predicate Addressed(d: seq<byte>, src: Ip, dst: Ip) {
    |d| > 0 && d[0] < 128 && Claimed(d) == Some(src) && Wanted(d) == Some(dst)
  }

  lemma {:induction false} FindSameKeys(a: seq<UdpServer.Registered>, b: seq<UdpServer.Registered>, key: UdpServer.Addr)
    requires |a| == |b| && forall i :: 0 <= i < |a| ==> a[i].key == b[i].key
    ensures UdpServer.Find(a, key) == UdpServer.Find(b, key)
  {
    if a != [] {
      FindSameKeys(a[1..], b[1..], key);
    }
  }

  /** A permitted sender stays permitted when its packet is forwarded. */
  lemma PermittedKept(s: UdpServer.Server, auth: bool, e: UdpServer.Event)
    requires UdpServer.Inv(s, auth) && UdpForwarding.Keyed(s) && UdpForwarding.PacketEvent(e)
    requires Permitted(s, auth, e.rinfo)
    ensures var s' := UdpServer.Step(s, auth, e);
            UdpServer.Refs(s') && Permitted(s', auth, e.rinfo)
  {
    UdpServer.StepKeepsInv(s, auth, e);
    var s1, p := PermittedStep(s, auth, e);
    hide UdpServer.Step, UdpForwarding.PacketEvent, UdpServer.FillsInOrder;
    if auth {
      FindSameKeys(s.registry, s1.registry, e.rinfo);
    }
  }

  /** One datagram for an address that is a route. */
  lemma {:induction false} DatagramIsSentOn(s: UdpServer.Server, auth: bool, past: seq<UdpServer.Event>,
                                            e: UdpServer.Event, src: Ip, dst: Ip)
    requires UdpServer.Inv(s, auth) && UdpForwarding.Traced(s, past) && e.Datagram? && src != dst
    requires Addressed(e.msg, src, dst) && dst in s.ipCache && Permitted(s, auth, e.rinfo)
    ensures var s' := UdpServer.Step(s, auth, e);
            && s.ipCache[dst].peer < |s.peers|
            && s.sent <= s'.sent && SentOn(s'.sent, |s.sent|, [e.msg], s.peers[s.ipCache[dst].peer].rinfo)
  {
    hide UdpServer.Step, UdpServer.FillsInOrder, UdpForwarding.Traced, Permitted, UdpForwarding.PacketEvent;
    hide Claimed, Wanted;
    EventBytes(e);
    var p := RouteIsUsed(s, auth, past, [], e);
    var to := s.peers[s.ipCache[dst].peer].rinfo;
    var f := UdpServer.Unicast(p, s.ipCache[dst].peer, to, e.msg[0] % 128, e.msg[1..]);
    assert UdpServer.Run(s, auth, []) == s;
    assert UdpServer.Step(s, auth, e).sent == s.sent + [f];
    assert Outgoing(f) == [e.msg[0]] + e.msg[1..] == e.msg;
    assert Carries(f, e.msg, to);
  }

  lemma {:induction false} DatagramIsRouted(s: UdpServer.Server, auth: bool, past: seq<UdpServer.Event>,
                                            e: UdpServer.Event, src: Ip, dst: Ip)
    requires UdpServer.Inv(s, auth) && UdpForwarding.Traced(s, past) && e.Datagram? && src != dst
    requires Addressed(e.msg, src, dst) && dst in s.ipCache && Permitted(s, auth, e.rinfo)
    ensures UdpServer.Refs(s)
    ensures var s' := UdpServer.Step(s, auth, e);
            && UdpServer.Inv(s', auth) && UdpForwarding.Traced(s', past + [e])
            && UdpServer.Refs(s') && Permitted(s', auth, e.rinfo)
            && dst in s'.ipCache && s'.ipCache[dst] == s.ipCache[dst] && s.ipCache[dst].peer < |s.peers| <= |s'.peers|
            && s'.peers[s.ipCache[dst].peer].rinfo == s.peers[s.ipCache[dst].peer].rinfo
  {
    hide UdpServer.Step, UdpServer.FillsInOrder, Permitted, UdpForwarding.PacketEvent, Claimed, Wanted;
    hide UdpForwarding.CacheTraced, UdpForwarding.FrameTraced;
    EventBytes(e);
    UdpServer.StepKeepsInv(s, auth, e);
    UdpForwarding.StepTraced(s, auth, e, past);
    PermittedKept(s, auth, e);
    RouteKept(s, auth, e, dst);
  }

  lemma {:induction false} DatagramsAreRouted(s: UdpServer.Server, auth: bool, past: seq<UdpServer.Event>,
                                              events: seq<UdpServer.Event>, ds: seq<seq<byte>>, rinfo: UdpServer.Addr,
                                              src: Ip, dst: Ip)
    requires UdpServer.Inv(s, auth) && UdpForwarding.Traced(s, past) && Sends(events, ds, rinfo) && src != dst
    requires forall i :: 0 <= i < |ds| ==> Addressed(ds[i], src, dst)
    requires dst in s.ipCache && s.ipCache[dst].peer < |s.peers| && Permitted(s, auth, rinfo)
    ensures var s' := UdpServer.Run(s, auth, events);
            s.sent <= s'.sent && SentOn(s'.sent, |s.sent|, ds, s.peers[s.ipCache[dst].peer].rinfo)
    decreases |events|
  {
    hide UdpServer.Step, UdpServer.Inv, UdpForwarding.Traced, Permitted, Addressed, UdpServer.Refs, Carries;
    if events != [] {
      var e := events[0];
      DatagramIsRouted(s, auth, past, e, src, dst);
      DatagramIsSentOn(s, auth, past, e, src, dst);
      var s1 := UdpServer.Step(s, auth, e);
      DatagramsAreRouted(s1, auth, past + [e], events[1..], ds[1..], rinfo, src, dst);
      var s' := UdpServer.Run(s, auth, events);
      SentOnMore(s.sent, s1.sent, s'.sent, ds, s.peers[s.ipCache[dst].peer].rinfo);
    }
  }

  lemma SentOnMore(a: seq<UdpServer.Frame>, b: seq<UdpServer.Frame>, c: seq<UdpServer.Frame>, ds: seq<seq<byte>>,
                   to: UdpServer.Addr)
    requires a <= b <= c && ds != [] && SentOn(b, |a|, [ds[0]], to) && SentOn(c, |b|, ds[1..], to)
    ensures SentOn(c, |a|, ds, to)
  {
    hide Carries;
    assert Carries(b[|a| + 0], [ds[0]][0], to);
    forall i | 0 <= i < |ds|
      ensures Carries(c[|a| + i], ds[i], to)
    {
      if i == 0 {
        assert c[|a|] == b[|a|];
      } else {
        assert Carries(c[|b| + (i - 1)], ds[1..][i - 1], to);
      }
    }
  }

  /**
   The whole way: a client sends a packet through the server to an address that
   is a route to another client. If more than four bytes are left for the last
   part, the server sends exactly the datagrams of the packet on to that client,
   in order; and that client, if it has room, hands on exactly the packet, once.
   */
  lemma {:induction false} PacketCrosses(s: UdpServer.Server, auth: bool, past: seq<UdpServer.Event>,
                                         events: seq<UdpServer.Event>, rinfo: UdpServer.Addr,
                                         packet: seq<byte>, pmtu: nat, id: u16, t: Table, f: nat)
    requires UdpServer.Inv(s, auth) && UdpForwarding.Traced(s, past) && Permitted(s, auth, rinfo)
    requires 20 < |packet| <= ETHER_MTU && (pmtu == 0 || pmtu >= MIN_FRAG_PAYLOAD_LEN) && Rest(|packet|, pmtu) > 4
    requires Sends(events, Datagrams(packet, pmtu, id), rinfo)
    requires From(packet) != To(packet) && To(packet) in s.ipCache && s.ipCache[To(packet)].peer < |s.peers|
    requires HasRoom(t, Key(From(packet), id), f)
    ensures var ds, to := Datagrams(packet, pmtu, id), s.peers[s.ipCache[To(packet)].peer].rinfo;
            && SentOn(UdpServer.Run(s, auth, events).sent, |s.sent|, ds, to)
            && AllReceivable(ds) && ReceiveAll(t, ds).1 == [packet]
  {
    hide UdpServer.Run, UdpServer.Inv, UdpForwarding.Traced, Permitted, Datagrams, Addressed, HasRoom;
    var ds := Datagrams(packet, pmtu, id);
    forall i | 0 <= i < |ds|
      ensures Addressed(ds[i], From(packet), To(packet))
    {
      DatagramAddresses(packet, pmtu, id, i);
    }
    DatagramsAreRouted(s, auth, past, events, ds, rinfo, From(packet), To(packet));
    ArrivesOnce(packet, pmtu, id, t, f);
  }

  /** A tail of four bytes fails: of a packet of 504 bytes in parts of 500, the server drops the last part. */
  lemma ShortTailIsDropped(packet: seq<byte>, id: u16)
    requires |packet| == 504
    ensures PartCount(504, 500) == 2 && !AllAddressed(Datagrams(packet, 500, id))
  {
    AllAddressedIff(packet, 500, id);
  }
}
