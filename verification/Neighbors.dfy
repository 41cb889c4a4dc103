/**
 The overlay neighbour table of src/lan-play.c: it is learned from the frames
 the overlay carries, and decides where a reply goes. With the table of Arp and
 the relays of Relay, a reply finds its way back on its own.
 */
module Neighbors {
  import opened Bytes
  import opened AddressTranslation
  import opened Ipv4
  import opened Relay
  import opened RelayChecksum
  import Arp
  import SwitchLearning

  /** zerotier_neighbors.arp_ttl. */
  const NEIGHBOR_TTL := 30

  /** The address for which the overlay capture handler learns the sender of a frame. */
  function PeerOf(c: Config, frame: seq<byte>): Option<Ip> {
    if |frame| < ETHER_HEADER_LEN || frame[ETHER_OFF_SRC..ETHER_OFF_SRC + 6] == c.ztMac then None else
    match NamedPeer(frame)
    case Some(ip) =>
      if c.IsOverlay(ip) && ip != c.ztIp && ip != c.Broadcast() && frame[ETHER_OFF_SRC] % 2 == 0 then Some(ip) else None
    case None => None
  }

  /** The source of an IPv4 frame, or the sender of an ARP frame. */
  function NamedPeer(frame: seq<byte>): Option<Ip>
    requires |frame| >= ETHER_HEADER_LEN
  {
    var type_, body := Read16(frame, ETHER_OFF_TYPE), frame[ETHER_HEADER_LEN..];
    if type_ == ETHER_TYPE_IPV4 then
      if |frame| >= ETHER_HEADER_LEN + IPV4_HEADER_LEN && body[0] / 16 == 4 then Some(Src(body)) else None
    else if type_ == SwitchLearning.ETHER_TYPE_ARP then
      if |frame| >= ETHER_HEADER_LEN + SwitchLearning.ARP_LEN && Read16(body, 0) == 1 &&
         Read16(body, 2) == ETHER_TYPE_IPV4 && body[4] == 6 && body[5] == 4 &&
         body[8..14] == frame[ETHER_OFF_SRC..ETHER_OFF_SRC + 6]
      then Some(body[14..18]) else None
    else None
  }

  /** A frame on the overlay, and the clock when it is captured. */
  datatype Capture = Capture(now: int, frame: seq<byte>)

  /** What a capture tells the table. */
  function Heard(c: Config, x: Capture): Option<Arp.Announcement> {
    match PeerOf(c, x.frame)
    case Some(ip) => Some(Arp.Announcement(x.now, x.frame[ETHER_OFF_SRC..ETHER_OFF_SRC + 6], ip))
    case None => None
  }

  function Announcements(c: Config, captures: seq<Capture>): seq<Arp.Announcement> {
    if captures == [] then [] else
    var before := Announcements(c, captures[..|captures| - 1]);
    match Heard(c, captures[|captures| - 1])
    case Some(a) => before + [a]
    case None => before
  }

  /** The table after everything captured so far. */
  function Table(c: Config, captures: seq<Capture>): Arp.State {
    Arp.Run(Announcements(c, captures), NEIGHBOR_TTL)
  }

  /** lan_play_send_zerotier_ipv4: arp_has_ip, then arp_get_mac_by_ip, each with its clock reading. */
  function NeighborOf(table: seq<Arp.Item>, ip: Ip, now: int, later: int): Option<Mac> {
    if Arp.Lookup(table, ip, now).None? then None else Arp.Lookup(table, ip, later)
  }

  // ------------------------------------------------------------- on the heap

  /** The learning half of lan_play_zerotier_pcap_handler. */
  method LearnNeighbor(table: Arp.Table, c: Config, frame: seq<byte>, now: int)
    modifies table, table.list
    ensures table.Model() == match Heard(c, Capture(now, frame))
                             case Some(a) => Arp.Set(old(table.Model()), a, table.arpTtl)
                             case None => old(table.Model())
  {
    if |frame| < ETHER_HEADER_LEN || frame[ETHER_OFF_SRC..ETHER_OFF_SRC + 6] == c.ztMac {
      return;
    }
    var peer := NamedPeer(frame);
    if peer.Some? && c.IsOverlay(peer.value) && peer.value != c.ztIp && peer.value != c.Broadcast() &&
       frame[ETHER_OFF_SRC] % 2 == 0 {
      var _ := table.SetEntry(frame[ETHER_OFF_SRC..ETHER_OFF_SRC + 6], peer.value, now);
    }
  }

  /** The lookups of lan_play_send_zerotier_ipv4; None means that the frame is broadcast. */
  method NeighborMac(table: Arp.Table, ip: Ip, now: int, later: int) returns (mac: Option<Mac>)
    ensures mac == NeighborOf(table.list[..], ip, now, later)
  {
    var known := table.HasIp(ip, now);
    if !known {
      return None;
    }
    var asked;
    mac, asked := table.GetMacByIp(ip, later);
  }

  // ---------------------------------------------- one address, one announcer

  /** Everything said about the address comes from this MAC. */
  predicate SaidBy(events: seq<Arp.Announcement>, ip: Ip, mac: Mac) {
    forall i :: 0 <= i < |events| && events[i].ip == ip ==> events[i].mac == mac
  }

  /** What the table has for the address is this MAC's, or had expired at time t. */
  predicate Settled(s: Arp.State, ip: Ip, mac: Mac, t: int) {
    var latest := Arp.Latest(s.accepted, ip);
    latest.Some? ==> latest.value.mac == mac || latest.value.expireAt <= t
  }

  /** The table has this MAC for the address at least until time t. */
  predicate HeldUntil(s: Arp.State, ip: Ip, mac: Mac, t: int) {
    var latest := Arp.Latest(s.accepted, ip);
    latest.Some? && latest.value.mac == mac && latest.value.expireAt >= t
  }

  lemma {:induction false} AnnouncedSettles(events: seq<Arp.Announcement>, a: Arp.Announcement, ttl: nat)
    requires Arp.Ordered(events + [a]) && a.ip != Arp.NONE_IP
    ensures var s, s' := Arp.Run(events, ttl), Arp.Run(events + [a], ttl);
            && Settled(s', a.ip, a.mac, a.now)
            && (!Arp.Full(s.table, a.ip, a.now) ==> HeldUntil(s', a.ip, a.mac, a.now + ttl))
  {
    var all := events + [a];
    assert all[..|all| - 1] == events && all[|all| - 1] == a;
    Arp.OrderedPrefix(events, a);
    Arp.LookupIsTimedMap(events, ttl, a.ip, a.now);
    var s := Arp.Run(events, ttl);
    assert Arp.Run(all, ttl) == Arp.Set(s, a, ttl);
    hide Arp.Run;
    Arp.RefusedIffFull(s, a, ttl);
    Arp.LatestSnoc(s.accepted, Arp.Item(a.ip, a.mac, a.now + ttl), a.ip);
    hide Arp.Latest;
  }

  lemma {:induction false} StaysSettled(events: seq<Arp.Announcement>, rest: seq<Arp.Announcement>, ttl: nat, ip: Ip,
                                        mac: Mac, t: int)
    requires SaidBy(rest, ip, mac) && (forall i :: 0 <= i < |rest| ==> t <= rest[i].now)
    ensures Settled(Arp.Run(events, ttl), ip, mac, t) ==> Settled(Arp.Run(events + rest, ttl), ip, mac, t)
    ensures HeldUntil(Arp.Run(events, ttl), ip, mac, t + ttl) ==>
      HeldUntil(Arp.Run(events + rest, ttl), ip, mac, t + ttl)
    decreases |rest|
  {
    if rest == [] {
      assert events + rest == events;
    } else {
      var before, a := rest[..|rest| - 1], rest[|rest| - 1];
      var all := events + rest;
      assert all[..|all| - 1] == events + before && all[|all| - 1] == a;
      StaysSettled(events, before, ttl, ip, mac, t);
      var s := Arp.Run(events + before, ttl);
      assert Arp.Run(all, ttl) == Arp.Set(s, a, ttl);
      Arp.LatestSnoc(s.accepted, Arp.Item(a.ip, a.mac, a.now + ttl), ip);
    }
  }

  // ---------------------------------------------------- runs of captured frames

  /** The clock never goes back. */
  predicate Clocked(captures: seq<Capture>) {
    forall i, j :: 0 <= i < j < |captures| ==> captures[i].now <= captures[j].now
  }

  lemma {:induction false} AnnouncementsAppend(c: Config, xs: seq<Capture>, ys: seq<Capture>)
    ensures Announcements(c, xs + ys) == Announcements(c, xs) + Announcements(c, ys)
    decreases |ys|
  {
    hide Heard;
    if ys == [] {
      assert xs + ys == xs;
    } else {
      var all := xs + ys;
      assert all[..|all| - 1] == xs + ys[..|ys| - 1];
      AnnouncementsAppend(c, xs, ys[..|ys| - 1]);
    }
  }

  lemma HeardNow(c: Config, x: Capture)
    ensures Heard(c, x).Some? ==> Heard(c, x).value.now == x.now
  {
    hide PeerOf;
  }

  lemma {:induction false} AnnouncementsOrdered(c: Config, xs: seq<Capture>)
    requires Clocked(xs)
    ensures Arp.Ordered(Announcements(c, xs))
    decreases |xs|
  {
    hide Heard;
    if xs != [] {
      var before, x := xs[..|xs| - 1], xs[|xs| - 1];
      AnnouncementsOrdered(c, before);
      AnnouncementsUntil(c, before, x.now);
      HeardNow(c, x);
    }
  }

  /** Only this MAC claims the address. */
  predicate ClaimedBy(c: Config, captures: seq<Capture>, ip: Ip, mac: Mac) {
    forall x <- captures :: Heard(c, x).Some? && Heard(c, x).value.ip == ip ==> Heard(c, x).value.mac == mac
  }

  lemma {:induction false} ClaimedIsSaid(c: Config, xs: seq<Capture>, ip: Ip, mac: Mac)
    requires ClaimedBy(c, xs, ip, mac)
    ensures SaidBy(Announcements(c, xs), ip, mac)
    decreases |xs|
  {
    hide Heard;
    if xs != [] {
      assert xs[|xs| - 1] in xs;
      ClaimedIsSaid(c, xs[..|xs| - 1], ip, mac);
    }
  }

  /**
   After a frame that announces an address, whatever else is captured before and
   after it, as long as nobody else claims the address later on: the table gives
   the announced MAC or none; and it does give it for 30 seconds, unless it was
   full when the frame came.
   */
  lemma {:induction false} AnnouncedIsFound(c: Config, before: seq<Capture>, x: Capture, after: seq<Capture>,
                                            a: Arp.Announcement, now: int, later: int)
    requires Heard(c, x) == Some(a) && a.ip != Arp.NONE_IP
    requires Clocked(before + [x] + after) && ClaimedBy(c, after, a.ip, a.mac)
    requires (forall y <- before + [x] + after :: y.now <= now) && now <= later
    ensures var neighbor := NeighborOf(Table(c, before + [x] + after).table, a.ip, now, later);
            && (neighbor == None || neighbor == Some(a.mac))
            && (!Arp.Full(Table(c, before).table, a.ip, a.now) && later < a.now + NEIGHBOR_TTL ==>
                  neighbor == Some(a.mac))
  {
    hide Announcements, Heard, ClaimedBy, Clocked, Arp.Run, Arp.Lookup, Arp.Full, Arp.Ordered, SaidBy;
    var events, rest := Announcements(c, before), Announcements(c, after);
    var all := before + [x] + after;
    AnnouncementsOf(c, before, x, after, a);
    AnnouncementsOrdered(c, all);
    AnnouncementsUntil(c, all, now);
    ClaimedIsSaid(c, after, a.ip, a.mac);
    FoundInEvents(events, a, rest, now);
    FoundInEvents(events, a, rest, later);
  }

  lemma {:induction false} AnnouncementsUntil(c: Config, xs: seq<Capture>, now: int)
    requires forall x <- xs :: x.now <= now
    ensures forall a <- Announcements(c, xs) :: a.now <= now
    decreases |xs|
  {
    hide Heard;
    if xs != [] {
      assert xs[|xs| - 1] in xs;
      AnnouncementsUntil(c, xs[..|xs| - 1], now);
      HeardNow(c, xs[|xs| - 1]);
    }
  }

  lemma AnnouncementsOf(c: Config, before: seq<Capture>, x: Capture, after: seq<Capture>, a: Arp.Announcement)
    requires Heard(c, x) == Some(a)
    ensures Announcements(c, before + [x] + after) == Announcements(c, before) + [a] + Announcements(c, after)
    ensures a.now == x.now
  {
    AnnouncementsAppend(c, before + [x], after);
    AnnouncementsAppend(c, before, [x]);
    HeardNow(c, x);
    hide Heard;
    assert [x][..0] == [];
  }

  lemma {:induction false} FoundInEvents(events: seq<Arp.Announcement>, a: Arp.Announcement,
                                         rest: seq<Arp.Announcement>, now: int)
    requires Arp.Ordered(events + [a] + rest) && a.ip != Arp.NONE_IP && SaidBy(rest, a.ip, a.mac)
    requires forall e <- events + [a] + rest :: e.now <= now
    ensures var mac := Arp.Lookup(Arp.Run(events + [a] + rest, NEIGHBOR_TTL).table, a.ip, now);
            && (mac == None || mac == Some(a.mac))
            && (!Arp.Full(Arp.Run(events, NEIGHBOR_TTL).table, a.ip, a.now) && now < a.now + NEIGHBOR_TTL ==>
                  mac == Some(a.mac))
  {
    var all := events + [a] + rest;
    assert all[..|events| + 1] == events + [a] && all[|events| + 1..] == rest && all[|events|] == a;
    hide Arp.Run, Arp.Latest, Arp.Lookup;
    AnnouncedSettles(events, a, NEIGHBOR_TTL);
    StaysSettled(events + [a], rest, NEIGHBOR_TTL, a.ip, a.mac, a.now);
    assert all == [] || all[|all| - 1] in all;
    Arp.LookupIsTimedMap(all, NEIGHBOR_TTL, a.ip, now);
  }

  // ------------------------------------------------------------ the way back

  /** An overlay host as ZeroTier sets one up. */
  predicate Host(c: Config) {
    c.ztIp != Arp.NONE_IP && !IsBroadcast(c, c.ztIp) && c.ztMac[0] % 2 == 0
  }

  /** The other relay learns the sender from the frame that crosses. */
  lemma SenderIsHeard(a: Config, b: Config, frame: seq<byte>, neighbor: Option<Mac>, t: int)
    requires Peers(a, b) && Host(a) && a.ztIp != b.ztIp && SwitchFrame(a, frame) && PacketOf(frame)[0] / 16 == 4
    requires FromWifi(a, frame, true, neighbor).Sent?
    ensures Heard(b, Capture(t, FromWifi(a, frame, true, neighbor).frame)) == Some(Arp.Announcement(t, a.ztMac, a.ztIp))
  {
    hide FromWifi, Rewritten, EtherFrame, Config.Broadcast, Config.IsOverlay, IsNintendoBroadcast, Heard;
    hide InSubnet, IsLast;
    var p := PacketOf(frame);
    FirstRelay(a, frame, neighbor);
    BroadcastIsLast(a, a.ztIp);
    PeersAgree(a, b);
    PeersAgree(b, a);
    var dst := OverlayDst(a, Dst(p));
    var q := Rewritten(p, a.ztIp, dst);
    RewrittenShape(p, a.ztIp, dst);
    assert Fixed(p, 0) && q[0] == p[0];
    FrameIsHeard(b, OverlayMac(a, Dst(p), neighbor), a.ztMac, q, t);
  }

  lemma FrameIsHeard(c: Config, to: Mac, from: Mac, q: seq<byte>, t: int)
    requires |q| >= IPV4_HEADER_LEN && q[0] / 16 == 4 && from != c.ztMac && from[0] % 2 == 0
    requires c.IsOverlay(Src(q)) && Src(q) != c.ztIp && Src(q) != c.Broadcast()
    ensures Heard(c, Capture(t, EtherFrame(to, from, q))) == Some(Arp.Announcement(t, from, Src(q)))
  {
    hide EtherFrame, Config.Broadcast, Config.IsOverlay;
    EtherFields(to, from, q);
    var f := EtherFrame(to, from, q);
    assert f[ETHER_OFF_SRC] == f[ETHER_OFF_SRC..ETHER_OFF_SRC + 6][0];
  }

  /** The sender of an IPv4 packet is learned exactly when it is another station of the overlay subnet. */
  lemma PacketIsHeardIff(c: Config, to: Mac, from: Mac, h: Header, payload: seq<byte>, t: int)
    requires h.Valid(payload)
    ensures Heard(c, Capture(t, EtherFrame(to, from, Packet(h, payload)))) ==
            if && from != c.ztMac && from[0] % 2 == 0 && h.version == 4
               && InSubnet(h.src, c.ztIp, c.ztMask) && h.src != c.ztIp && !IsLast(h.src, c.ztIp, c.ztMask)
            then Some(Arp.Announcement(t, from, h.src)) else None
  {
    hide EtherFrame, Config.Broadcast, Config.IsOverlay, InSubnet, IsLast, Packet;
    PacketBytes(h, payload);
    OverlayIsSubnet(c, h.src);
    BroadcastIsLast(c, h.src);
    var q := Packet(h, payload);
    EtherFields(to, from, q);
    var f := EtherFrame(to, from, q);
    assert f[ETHER_OFF_SRC] == f[ETHER_OFF_SRC..ETHER_OFF_SRC + 6][0];
  }

  /** So is the sender an ARP packet names, whatever its opcode, if the frame comes from the MAC it names. */
  lemma ArpIsHeardIff(c: Config, to: Mac, from: Mac, opcode: u16, sender: Mac, ip: Ip, rest: seq<byte>, t: int)
    requires |rest| >= 10
    ensures Heard(c, Capture(t, SwitchLearning.ArpFrame(to, from, opcode, sender, ip, rest))) ==
            if && from != c.ztMac && from[0] % 2 == 0 && sender == from
               && InSubnet(ip, c.ztIp, c.ztMask) && ip != c.ztIp && !IsLast(ip, c.ztIp, c.ztMask)
            then Some(Arp.Announcement(t, from, ip)) else None
  {
    hide SwitchLearning.ArpFrame, Config.Broadcast, Config.IsOverlay, InSubnet, IsLast;
    SwitchLearning.ArpFields(to, from, opcode, sender, ip, rest);
    OverlayIsSubnet(c, ip);
    BroadcastIsLast(c, ip);
  }

  /**
   The round trip: console A's packet has crossed to host B at time t. Whatever
   frames B captured before and after, unless somebody else claims A's overlay
   address later on, a datagram that console B sends to that address, at any
   later time, is delivered to console A. Nothing is asked of B's neighbour
   table: it has A's MAC, or the frame is broadcast.
   */
  lemma {:induction false} ReplyComesBack(a: Config, b: Config, frame: seq<byte>, neighbor: Option<Mac>, t: int,
                                          before: seq<Capture>, after: seq<Capture>, reply: seq<byte>,
                                          now: int, later: int)
    requires Peers(a, b) && Host(a) && a.ztIp != b.ztIp && SwitchFrame(a, frame) && PacketOf(frame)[0] / 16 == 4
    requires FromWifi(a, frame, true, neighbor).Sent? && CarriedTo(FromWifi(a, frame, true, neighbor).frame, b)
    requires var captures := before + [Capture(t, FromWifi(a, frame, true, neighbor).frame)] + after;
             Clocked(captures) && forall x <- captures :: x.now <= now
    requires now <= later && ClaimedBy(b, after, a.ztIp, a.ztMac)
    requires SwitchFrame(b, reply) && Dst(PacketOf(reply)) == a.ztIp
    ensures var captures := before + [Capture(t, FromWifi(a, frame, true, neighbor).frame)] + after;
            var found := NeighborOf(Table(b, captures).table, a.ztIp, now, later);
            exists r :: && Crosses(FromWifi(b, reply, true, found), a) == Sent(EtherFrame(a.switchMac, a.wifiMac, r))
                        && Translated(PacketOf(reply), r) && WholeUdp(r) && HeaderValid(r) && UdpValid(r)
                        && Src(r) == b.ztIp && Dst(r) == a.switchIp
  {
    hide FromWifi, Crosses, Translated, HeaderValid, UdpValid, IsNintendoBroadcast, EtherFrame;
    hide Heard, Table, NeighborOf, ClaimedBy, Clocked;
    var x := Capture(t, FromWifi(a, frame, true, neighbor).frame);
    SenderIsHeard(a, b, frame, neighbor, t);
    AnnouncedIsFound(b, before, x, after, Arp.Announcement(t, a.ztMac, a.ztIp), now, later);
    var found := NeighborOf(Table(b, before + [x] + after).table, a.ztIp, now, later);
    PeersAgree(a, b);
    hide Config.IsOverlay, Config.Broadcast;
    AcrossTwoRelays(b, a, reply, found);
  }
}
