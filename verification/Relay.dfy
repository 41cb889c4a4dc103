/**
 The two relay functions of src/lan-play.c, and the journey of a game packet
 through two relays on one overlay network.
 */
module Relay {
  import opened Bytes
  import opened RelayChecksum
  import opened AddressTranslation
  import opened Ipv4

  /** The fields of struct lan_play that the relay functions read. */
  datatype Config = Config(
    ztIp: Ip,
    ztMask: Ip,
    ztMac: Mac,
    wifiMac: Mac,
    switchSeen: bool,
    switchIp: Ip,
    switchMac: Mac
  ) {
    /** zerotier_broadcast_ip, as lan_play_init computes it. */
    function Broadcast(): Ip {
      [OrNot(ztIp[0], ztMask[0]), OrNot(ztIp[1], ztMask[1]), OrNot(ztIp[2], ztMask[2]), OrNot(ztIp[3], ztMask[3])]
    }

    /** is_zerotier_destination. */
    predicate IsOverlay(ip: Ip) {
      ip == Broadcast() || forall i :: 0 <= i < 4 ==> And(ip[i], ztMask[i]) == And(ztIp[i], ztMask[i])
    }
  }

  /** a & b. */
  function And(a: byte, b: byte): bv8 {
    Bits(a) & Bits(b)
  }

  /** a | (uint8_t)~b. */
  function OrNot(a: byte, b: byte): byte {
    FromBits(SetHostBits(Bits(a), Bits(b)))
  }

  predicate IsNintendoBroadcast(ip: Ip) {
    ip == [10, 255, 255, 255]
  }

  /** NotRelayed: the function returned false. Swallowed: handled, nothing sent. */
  datatype Outcome = NotRelayed | Swallowed | Sent(frame: seq<byte>)

  function EtherFrame(dst: Mac, src: Mac, packet: seq<byte>): seq<byte> {
    dst + src + Net16(ETHER_TYPE_IPV4) + packet
  }

  /** The console's "port unreachable" errors, which are never forwarded. */
  predicate PortUnreachable(ip: seq<byte>, len: nat)
    requires IPV4_HEADER_LEN <= |ip| && len <= |ip|
  {
    var h := HeaderLen(ip);
    && ip[IPV4_OFF_PROTOCOL] == IPV4_PROTOCOL_ICMP
    && Read16(ip, IPV4_OFF_FLAGS_FRAG_OFFSET) % 0x4000 == 0
    && IPV4_HEADER_LEN <= h && h + 8 <= len
    && ip[h] == 3 && ip[h + 1] == 3
  }

  /** The datagrams whose source port must be reserved on the host before they are sent. */
  predicate NeedsPort(p: seq<byte>)
    requires CanRewrite(p)
  {
    HasUdp(p) && Read16(p, IPV4_OFF_FLAGS_FRAG_OFFSET) % 0x2000 == 0
  }

  /**
   lan_play_relay_wifi_ipv4. `portReserved` is the answer of native_udp_guard_reserve,
   `neighbor` that of the overlay ARP table for the destination.
   */
  function FromWifi(c: Config, frame: seq<byte>, portReserved: bool, neighbor: Option<Mac>): Outcome {
    if !c.switchSeen || |frame| < ETHER_HEADER_LEN + IPV4_HEADER_LEN then NotRelayed else
    var ip := frame[ETHER_HEADER_LEN..];
    var len := Read16(ip, IPV4_OFF_TOTAL_LEN);
    if Src(ip) != c.switchIp then NotRelayed
    else if len > ETHER_MTU || |frame| < ETHER_HEADER_LEN + len then NotRelayed
    else if !IsNintendoBroadcast(Dst(ip)) && !c.IsOverlay(Dst(ip)) then NotRelayed
    else if PortUnreachable(ip, len) then Swallowed
    else if !CanRewrite(ip[..len]) then NotRelayed
    else if NeedsPort(ip[..len]) && !portReserved then Swallowed
    else
      Sent(EtherFrame(OverlayMac(c, Dst(ip), neighbor), c.ztMac, Rewritten(ip[..len], c.ztIp, OverlayDst(c, Dst(ip)))))
  }

  function OverlayDst(c: Config, dst: Ip): Ip {
    if IsNintendoBroadcast(dst) then c.Broadcast() else dst
  }

  /** lan_play_relay_zerotier_ipv4. */
  function FromOverlay(c: Config, frame: seq<byte>): Outcome {
    if !c.switchSeen || |frame| < ETHER_HEADER_LEN + IPV4_HEADER_LEN then NotRelayed else
    var ip := frame[ETHER_HEADER_LEN..];
    var len := Read16(ip, IPV4_OFF_TOTAL_LEN);
    var broadcast := Dst(ip) == c.Broadcast();
    if len > ETHER_MTU || |frame| < ETHER_HEADER_LEN + len then NotRelayed
    else if !broadcast && Dst(ip) != c.ztIp && Dst(ip) != c.switchIp then NotRelayed
    else if !CanRewrite(ip[..len]) then NotRelayed
    else
      var dst := if broadcast then c.Broadcast() else c.switchIp;
      var mac := if broadcast then BROADCAST_MAC else c.switchMac;
      Sent(EtherFrame(mac, c.wifiMac, Rewritten(ip[..len], Src(ip), dst)))
  }

  /** The overlay capture handler's filter in front of FromOverlay: not our own frame, and IPv4. */
  function OverlayIngress(c: Config, frame: seq<byte>): Outcome {
    if |frame| < ETHER_HEADER_LEN || frame[ETHER_OFF_SRC..ETHER_OFF_SRC + 6] == c.ztMac then NotRelayed
    else if Read16(frame, ETHER_OFF_TYPE) != ETHER_TYPE_IPV4 then NotRelayed
    else FromOverlay(c, frame)
  }

  /** memcpy of the packet, then the rewrite in place. */
  method Translate(packet: seq<byte>, src: Ip, dst: Ip) returns (r: Option<seq<byte>>)
    ensures r == if CanRewrite(packet) then Some(Rewritten(packet, src, dst)) else None
  {
    var translated := new byte[|packet|](i requires 0 <= i < |packet| => packet[i]);
    assert translated[..] == packet;
    var ok := RewriteAddresses(translated, src, dst);
    r := if ok then Some(translated[..]) else None;
  }

  /** A frame that a relay sends: its Ethernet addresses, and an IPv4 packet p translated to new addresses. */
  predicate Forwards(out: seq<byte>, to: Mac, from: Mac, p: seq<byte>, src: Ip, dst: Ip)
    requires CanRewrite(p)
  {
    && |out| == ETHER_HEADER_LEN + |p|
    && out[..6] == to && out[ETHER_OFF_SRC..ETHER_OFF_SRC + 6] == from && Read16(out, ETHER_OFF_TYPE) == ETHER_TYPE_IPV4
    && var q := out[ETHER_HEADER_LEN..];
       && Translated(p, q) && CanRewrite(q) && HeaderValid(q)
       && Src(q) == src && Dst(q) == dst
       && (!HasUdp(p) ==> q[HeaderLen(p)..] == p[HeaderLen(p)..])
       && (WholeUdp(p) ==> WholeUdp(q) && UdpValid(q))
  }

  lemma FrameForwards(to: Mac, from: Mac, p: seq<byte>, src: Ip, dst: Ip)
    requires CanRewrite(p)
    ensures Forwards(EtherFrame(to, from, Rewritten(p, src, dst)), to, from, p, src, dst)
  {
    hide Rewritten, HeaderValid, UdpValid, Translated;
    var q := Rewritten(p, src, dst);
    RewrittenBytes(p, src, dst);
    RewrittenTranslated(p, src, dst);
    RewrittenParses(p, src, dst);
    RewrittenHeaderValid(p, src, dst);
    if WholeUdp(p) {
      RewrittenUdpValid(p, src, dst);
    }
    hide CanRewrite, HasUdp, WholeUdp, NewUdpChecksum, HeaderLen;
    EtherFields(to, from, q);
  }

  lemma EtherFields(to: Mac, from: Mac, q: seq<byte>)
    ensures var f := EtherFrame(to, from, q);
            && |f| == ETHER_HEADER_LEN + |q|
            && f[..6] == to && f[ETHER_OFF_SRC..ETHER_OFF_SRC + 6] == from
            && Read16(f, ETHER_OFF_TYPE) == ETHER_TYPE_IPV4
            && f[ETHER_HEADER_LEN..] == q
  {
    var f := EtherFrame(to, from, q);
    assert f[12] == 0x08 && f[13] == 0x00;
  }

  /** The packet of a frame as long as its IPv4 header says, if the frame is that long. */
  predicate Carries(frame: seq<byte>, p: seq<byte>) {
    && |frame| >= ETHER_HEADER_LEN + IPV4_HEADER_LEN && |p| == Read16(frame[ETHER_HEADER_LEN..], IPV4_OFF_TOTAL_LEN)
    && ETHER_HEADER_LEN + |p| <= |frame| && frame[ETHER_HEADER_LEN..][..|p|] == p
  }

  /**
   A relayed frame comes from the overlay address and MAC of the relay. It is for the
   last address of the overlay subnet and goes to everybody, or for a host of it and
   goes to the neighbour's MAC, if there is one.
   */
  ghost predicate SentToOverlay(c: Config, frame: seq<byte>, neighbor: Option<Mac>, out: seq<byte>) {
    exists p, dst: Ip ::
      && Carries(frame, p) && CanRewrite(p) && Src(p) == c.switchIp
      && (if Dst(p) == [10, 255, 255, 255] then IsLast(dst, c.ztIp, c.ztMask)
          else dst == Dst(p) && InSubnet(dst, c.ztIp, c.ztMask))
      && Forwards(out, if IsLast(dst, c.ztIp, c.ztMask) || neighbor.None? then BROADCAST_MAC else neighbor.value,
                  c.ztMac, p, c.ztIp, dst)
  }

  function OverlayMac(c: Config, dst: Ip, neighbor: Option<Mac>): Mac {
    if OverlayDst(c, dst) == c.Broadcast() || neighbor.None? then BROADCAST_MAC else neighbor.value
  }

  /** A frame sent on to Wi-Fi keeps its source and goes to the console, or to everybody. */
  ghost predicate SentToWifi(c: Config, frame: seq<byte>, out: seq<byte>) {
    exists p :: && Carries(frame, p) && CanRewrite(p)
                && if IsLast(Dst(p), c.ztIp, c.ztMask) then Forwards(out, BROADCAST_MAC, c.wifiMac, p, Src(p), Dst(p))
                   else (Dst(p) == c.ztIp || Dst(p) == c.switchIp) &&
                        Forwards(out, c.switchMac, c.wifiMac, p, Src(p), c.switchIp)
  }

  /** The header of the packet is the header in the frame. */
  lemma CarriedFields(frame: seq<byte>, len: nat)
    requires |frame| >= ETHER_HEADER_LEN + IPV4_HEADER_LEN &&
      len == Read16(frame[ETHER_HEADER_LEN..], IPV4_OFF_TOTAL_LEN)
    requires ETHER_HEADER_LEN + len <= |frame| && CanRewrite(frame[ETHER_HEADER_LEN..][..len])
    ensures var ip, p := frame[ETHER_HEADER_LEN..], frame[ETHER_HEADER_LEN..][..len];
            Carries(frame, p) && Src(ip) == Src(p) && Dst(ip) == Dst(p)
  {
    var ip, p := frame[ETHER_HEADER_LEN..], frame[ETHER_HEADER_LEN..][..len];
    assert p[IPV4_OFF_SRC..IPV4_OFF_SRC + 4] == ip[IPV4_OFF_SRC..IPV4_OFF_SRC + 4];
    assert p[IPV4_OFF_DST..IPV4_OFF_DST + 4] == ip[IPV4_OFF_DST..IPV4_OFF_DST + 4];
  }

  /** Everything the Wi-Fi relay sends is a faithful translation of a packet of the console. */
  lemma WifiFramesTranslated(c: Config, frame: seq<byte>, portReserved: bool, neighbor: Option<Mac>)
    ensures var out := FromWifi(c, frame, portReserved, neighbor);
            out.Sent? ==> SentToOverlay(c, frame, neighbor, out.frame)
  {
    hide Rewritten, EtherFrame, Config.Broadcast, Config.IsOverlay, PortUnreachable, NeedsPort;
    var out := FromWifi(c, frame, portReserved, neighbor);
    if out.Sent? {
      var ip := frame[ETHER_HEADER_LEN..];
      var p := ip[..Read16(ip, IPV4_OFF_TOTAL_LEN)];
      CarriedFields(frame, |p|);
      hide CanRewrite, Carries, Src, Dst, InSubnet, IsLast;
      var dst := OverlayDst(c, Dst(p));
      FrameForwards(OverlayMac(c, Dst(p), neighbor), c.ztMac, p, c.ztIp, dst);
      hide Forwards;
      BroadcastIsLast(c, dst);
      OverlayIsSubnet(c, Dst(p));
    }
  }

  lemma OverlayFramesTranslated(c: Config, frame: seq<byte>)
    ensures var out := FromOverlay(c, frame); out.Sent? ==> SentToWifi(c, frame, out.frame)
  {
    hide Rewritten, EtherFrame, Config.Broadcast;
    var out := FromOverlay(c, frame);
    if out.Sent? {
      var ip := frame[ETHER_HEADER_LEN..];
      var p := ip[..Read16(ip, IPV4_OFF_TOTAL_LEN)];
      CarriedFields(frame, |p|);
      hide CanRewrite, Carries, Src, Dst, IsLast;
      BroadcastIsLast(c, Dst(p));
      var broadcast := Dst(p) == c.Broadcast();
      FrameForwards(if broadcast then BROADCAST_MAC else c.switchMac, c.wifiMac, p,
                    Src(p), if broadcast then c.Broadcast() else c.switchIp);
      hide Forwards;
    }
  }

  // ---------------------------------------------------------- field by field

  /** A packet with a well-formed header, behind an Ethernet header and before any padding. */
  lemma FramedPacket(to: Mac, from: Mac, h: Header, payload: seq<byte>, padding: seq<byte>)
    requires h.Valid(payload)
    ensures var p, frame := Packet(h, payload), EtherFrame(to, from, Packet(h, payload) + padding);
            var ip := frame[ETHER_HEADER_LEN..];
            && |frame| >= ETHER_HEADER_LEN + h.totalLen && |ip| >= IPV4_HEADER_LEN
            && frame[ETHER_OFF_SRC..ETHER_OFF_SRC + 6] == from && Read16(frame, ETHER_OFF_TYPE) == ETHER_TYPE_IPV4
            && Read16(ip, IPV4_OFF_TOTAL_LEN) == h.totalLen && ip[..h.totalLen] == p
            && Src(ip) == h.src && Dst(ip) == h.dst && CanRewrite(p) && |p| == h.totalLen
  {
    hide EtherFrame, Packet;
    PacketBytes(h, payload);
    var p := Packet(h, payload);
    EtherFields(to, from, p + padding);
    var ip := p + padding;
    assert ip[..h.totalLen] == p && ip[12..16] == p[12..16] && ip[16..20] == p[16..20];
  }

  /** ICMP "port unreachable" (RFC 792: type 3, code 3) in one piece. */
  predicate IsPortUnreachable(h: Header, payload: seq<byte>) {
    h.protocol == 1 && h.Whole() && |payload| >= 8 && payload[0] == 3 && payload[1] == 3
  }

  lemma PortUnreachableIff(h: Header, payload: seq<byte>, padding: seq<byte>)
    requires h.Valid(payload)
    ensures var ip := Packet(h, payload) + padding;
            |ip| >= IPV4_HEADER_LEN && h.totalLen <= |ip| &&
            (PortUnreachable(ip, h.totalLen) <==> IsPortUnreachable(h, payload))
  {
    hide Packet;
    PacketBytes(h, payload);
    var p := Packet(h, payload);
    var n := 4 * h.ihl as int;
    assert forall i :: 0 <= i < |payload| ==> p[n + i] == p[n..][i];
  }

  lemma NeedsPortIff(h: Header, payload: seq<byte>)
    requires h.Valid(payload)
    ensures CanRewrite(Packet(h, payload))
    ensures NeedsPort(Packet(h, payload)) <==> h.protocol == 17 && h.First() && |payload| >= 8
  {
    hide Packet;
    PacketBytes(h, payload);
  }

  /**
   What the Wi-Fi relay does with a packet, in terms of its header: only the
   console's packets for the overlay count; its port-unreachable errors are
   swallowed, so is a datagram whose port the host cannot reserve, and everything
   else goes out.
   */
  lemma {:induction false} WifiOutcome(c: Config, to: Mac, from: Mac, h: Header, payload: seq<byte>, padding: seq<byte>,
                                       portReserved: bool, neighbor: Option<Mac>)
    requires h.Valid(payload)
    ensures CanRewrite(Packet(h, payload))
    ensures FromWifi(c, EtherFrame(to, from, Packet(h, payload) + padding), portReserved, neighbor) ==
            if !c.switchSeen || h.src != c.switchIp || h.totalLen > ETHER_MTU ||
               !(h.dst == [10, 255, 255, 255] || InSubnet(h.dst, c.ztIp, c.ztMask)) then NotRelayed
            else if IsPortUnreachable(h, payload) then Swallowed
            else if h.protocol == 17 && h.First() && |payload| >= 8 && !portReserved then Swallowed
            else Sent(EtherFrame(OverlayMac(c, h.dst, neighbor), c.ztMac,
                                 Rewritten(Packet(h, payload), c.ztIp, OverlayDst(c, h.dst))))
  {
    hide EtherFrame, Packet, Rewritten, PortUnreachable, NeedsPort, IsPortUnreachable, InSubnet, CanRewrite;
    hide Config.IsOverlay, OverlayMac, OverlayDst, Src, Dst, Header.Valid;
    FramedPacket(to, from, h, payload, padding);
    PortUnreachableIff(h, payload, padding);
    NeedsPortIff(h, payload);
    OverlayIsSubnet(c, h.dst);
    EtherFields(to, from, Packet(h, payload) + padding);
  }

  /** What the overlay relay does with a packet of another host: the last address and its own two addresses count. */
  lemma {:induction false} OverlayOutcome(c: Config, to: Mac, from: Mac, h: Header, payload: seq<byte>,
                                          padding: seq<byte>)
    requires h.Valid(payload)
    ensures CanRewrite(Packet(h, payload))
    ensures OverlayIngress(c, EtherFrame(to, from, Packet(h, payload) + padding)) ==
            if from == c.ztMac || !c.switchSeen || h.totalLen > ETHER_MTU then NotRelayed
            else if IsLast(h.dst, c.ztIp, c.ztMask) then
              Sent(EtherFrame(BROADCAST_MAC, c.wifiMac, Rewritten(Packet(h, payload), h.src, h.dst)))
            else if h.dst == c.ztIp || h.dst == c.switchIp then
              Sent(EtherFrame(c.switchMac, c.wifiMac, Rewritten(Packet(h, payload), h.src, c.switchIp)))
            else NotRelayed
  {
    hide EtherFrame, Packet, Rewritten, IsLast, Config.Broadcast, CanRewrite, Src, Dst, Header.Valid;
    FramedPacket(to, from, h, payload, padding);
    NeedsPortIff(h, payload);
    BroadcastIsLast(c, h.dst);
  }

  lemma HasUdpIff(h: Header, payload: seq<byte>)
    requires h.Valid(payload)
    ensures var p := Packet(h, payload);
            && CanRewrite(p) && HeaderLen(p) == 4 * h.ihl as int && |p| == h.totalLen
            && (HasUdp(p) <==> h.protocol == 17 && |payload| >= 8)
  {
    hide Packet;
    PacketBytes(h, payload);
  }

  /**
   A rewritten packet is the packet with other addresses and a new header
   checksum; of the payload only a UDP checksum changes.
   */
  lemma {:induction false} RewrittenIsPacket(h: Header, payload: seq<byte>, src: Ip, dst: Ip)
    returns (h': Header, payload': seq<byte>)
    requires h.Valid(payload)
    ensures CanRewrite(Packet(h, payload)) && h'.Valid(payload')
    ensures Rewritten(Packet(h, payload), src, dst) == Packet(h', payload')
    ensures h' == h.(src := src, dst := dst, checksum := h'.checksum) && |payload'| == |payload|
    ensures forall i :: 0 <= i < |payload| && payload'[i] != payload[i] ==>
              h.protocol == 17 && |payload| >= 8 && 6 <= i < 8
  {
    hide Rewritten, Packet, NewUdpChecksum, CanRewrite, HasUdp, HeaderLen, WithHeaderChecksum, WithAddresses;
    PacketBytes(h, payload);
    HasUdpIff(h, payload);
    var p, n := Packet(h, payload), 4 * h.ihl as int;
    RewrittenBytes(p, src, dst);
    var q := Rewritten(p, src, dst);
    Readdressed(h, payload, q, src, dst);
    payload' := q[n..];
    h' := h.(src := src, dst := dst, checksum := Read16(q, 10));
    assert forall i :: 0 <= i < |payload| ==> payload'[i] == q[n + i] && payload[i] == p[n + i];
  }

  /** lan_play_relay_wifi_ipv4, over every frame. */
  method RelayWifiIpv4(c: Config, frame: seq<byte>, portReserved: bool, neighbor: Option<Mac>) returns (out: Outcome)
    ensures out == FromWifi(c, frame, portReserved, neighbor)
    ensures out.Sent? ==> SentToOverlay(c, frame, neighbor, out.frame)
  {
    WifiFramesTranslated(c, frame, portReserved, neighbor);
    hide Rewritten, SentToOverlay;
    if !c.switchSeen || |frame| < ETHER_HEADER_LEN + IPV4_HEADER_LEN {
      return NotRelayed;
    }
    var ip := frame[ETHER_HEADER_LEN..];
    if Src(ip) != c.switchIp {
      return NotRelayed;
    }
    var len := Read16(ip, IPV4_OFF_TOTAL_LEN);
    var originalDst := Dst(ip);
    if len > ETHER_MTU || |frame| < ETHER_HEADER_LEN + len ||
       (!IsNintendoBroadcast(originalDst) && !c.IsOverlay(originalDst)) {
      return NotRelayed;
    }
    if PortUnreachable(ip, len) {
      return Swallowed;
    }
    var dst := if IsNintendoBroadcast(originalDst) then c.Broadcast() else originalDst;
    var translated := Translate(ip[..len], c.ztIp, dst);
    if translated.None? {
      return NotRelayed;
    }
    if NeedsPort(ip[..len]) && !portReserved {
      return Swallowed;
    }
    if dst == c.Broadcast() || neighbor.None? {
      return Sent(EtherFrame(BROADCAST_MAC, c.ztMac, translated.value));
    }
    return Sent(EtherFrame(neighbor.value, c.ztMac, translated.value));
  }

  /** lan_play_relay_zerotier_ipv4, over every frame. */
  method RelayZerotierIpv4(c: Config, frame: seq<byte>) returns (out: Outcome)
    ensures out == FromOverlay(c, frame)
    ensures out.Sent? ==> SentToWifi(c, frame, out.frame)
  {
    OverlayFramesTranslated(c, frame);
    hide Rewritten, SentToWifi;
    if !c.switchSeen || |frame| < ETHER_HEADER_LEN + IPV4_HEADER_LEN {
      return NotRelayed;
    }
    var ip := frame[ETHER_HEADER_LEN..];
    var len := Read16(ip, IPV4_OFF_TOTAL_LEN);
    var originalDst := Dst(ip);
    var broadcast := originalDst == c.Broadcast();
    var forSwitch := !broadcast && originalDst == c.switchIp;
    if len > ETHER_MTU || |frame| < ETHER_HEADER_LEN + len ||
       (!broadcast && originalDst != c.ztIp && !forSwitch) {
      return NotRelayed;
    }
    var translated := Translate(ip[..len], Src(ip), if broadcast then c.Broadcast() else c.switchIp);
    if translated.None? {
      return NotRelayed;
    }
    return Sent(EtherFrame(if broadcast then BROADCAST_MAC else c.switchMac, c.wifiMac, translated.value));
  }

  // ------------------------------------------------------------- two relays

  /** Two distinct hosts of one overlay network, each with its Switch known. */
  predicate Peers(a: Config, b: Config) {
    && a.switchSeen && b.switchSeen
    && a.ztMac != b.ztMac
    && a.ztMask == b.ztMask
    && InSubnet(b.ztIp, a.ztIp, a.ztMask)
  }

  /** A Wi-Fi frame, possibly padded, that carries a whole UDP datagram of the Switch. */
  predicate SwitchFrame(c: Config, frame: seq<byte>) {
    && |frame| >= ETHER_HEADER_LEN + IPV4_HEADER_LEN
    && ETHER_HEADER_LEN + Read16(frame, ETHER_HEADER_LEN + IPV4_OFF_TOTAL_LEN) <= |frame|
    && WholeUdp(PacketOf(frame))
    && Src(PacketOf(frame)) == c.switchIp
  }

  /** The IPv4 packet of a frame, without Ethernet padding. */
  function PacketOf(frame: seq<byte>): seq<byte>
    requires |frame| >= ETHER_HEADER_LEN + IPV4_HEADER_LEN
    requires ETHER_HEADER_LEN + Read16(frame, ETHER_HEADER_LEN + IPV4_OFF_TOTAL_LEN) <= |frame|
  {
    frame[ETHER_HEADER_LEN..][..Read16(frame, ETHER_HEADER_LEN + IPV4_OFF_TOTAL_LEN)]
  }

  /** The broadcast of the console's own subnet, or the last address of the overlay's. */
  predicate IsBroadcast(a: Config, dst: Ip) {
    dst == [10, 255, 255, 255] || IsLast(dst, a.ztIp, a.ztMask)
  }

  /** The destinations that lead from Switch A to B's Wi-Fi. */
  predicate Reaches(a: Config, b: Config, dst: Ip) {
    IsBroadcast(a, dst) || dst == b.ztIp || (dst == b.switchIp && InSubnet(dst, a.ztIp, a.ztMask))
  }

  /** What B's Wi-Fi sees of packet `p` sent by Switch A. */
  predicate Delivered(a: Config, b: Config, p: seq<byte>, q: seq<byte>, mac: Mac)
    requires WholeUdp(p)
  {
    && Translated(p, q) && WholeUdp(q) && HeaderValid(q) && UdpValid(q)
    && Src(q) == a.ztIp
    && (if IsBroadcast(a, Dst(p)) then IsLast(Dst(q), b.ztIp, b.ztMask) else Dst(q) == b.switchIp)
    && mac == (if IsBroadcast(a, Dst(p)) then BROADCAST_MAC else b.switchMac)
  }

  lemma LastByte(x: byte, a: byte, m: byte)
    ensures x == OrNot(a, m) <==> HostBitsSet(Bits(x), Bits(a), Bits(m))
  {
    hide Bits, FromBits, HostBitsSet, SetHostBits;
    SetHostBitsIff(Bits(x), Bits(a), Bits(m));
    BackAndBits(SetHostBits(Bits(a), Bits(m)));
    BitsAndBack(x);
  }

  /** zerotier_broadcast_ip is the last address of the overlay subnet. */
  lemma BroadcastIsLast(c: Config, ip: Ip)
    ensures ip == c.Broadcast() <==> IsLast(ip, c.ztIp, c.ztMask)
  {
    hide Bits, OrNot, HostBitsSet, IsLast;
    LastByBytes(ip, c.ztIp, c.ztMask);
    forall i | 0 <= i < 4
      ensures ip[i] == OrNot(c.ztIp[i], c.ztMask[i]) <==> HostBitsSet(Bits(ip[i]), Bits(c.ztIp[i]), Bits(c.ztMask[i]))
    {
      LastByte(ip[i], c.ztIp[i], c.ztMask[i]);
    }
    assert ip == [ip[0], ip[1], ip[2], ip[3]];
  }

  /** is_zerotier_destination decides membership in the overlay subnet. */
  lemma OverlayIsSubnet(c: Config, ip: Ip)
    ensures c.IsOverlay(ip) <==> InSubnet(ip, c.ztIp, c.ztMask)
  {
    BroadcastIsLast(c, ip);
    hide Bits, Config.Broadcast;
  }

  lemma MaskedOr(x: bv8, y: bv8, m: bv8)
    requires x & m == y & m
    ensures x | !m == y | !m
  {
  }

  lemma OrNotByNetwork(x: byte, y: byte, m: byte)
    requires And(x, m) == And(y, m)
    ensures OrNot(x, m) == OrNot(y, m)
  {
    hide Bits, FromBits;
    MaskedOr(Bits(x), Bits(y), Bits(m));
  }

  /** Peers agree on the overlay's broadcast address and on which addresses belong to it. */
  lemma PeersAgree(a: Config, b: Config)
    requires Peers(a, b)
    ensures a.Broadcast() == b.Broadcast()
    ensures a.IsOverlay(b.ztIp)
    ensures Peers(b, a)
  {
    forall i | 0 <= i < 4
      ensures OrNot(a.ztIp[i], a.ztMask[i]) == OrNot(b.ztIp[i], a.ztMask[i])
    {
      OrNotByNetwork(a.ztIp[i], b.ztIp[i], a.ztMask[i]);
    }
  }

  lemma FrameFields(dst: Mac, src: Mac, p: seq<byte>)
    requires WholeUdp(p)
    ensures var f := EtherFrame(dst, src, p);
            && |f| == ETHER_HEADER_LEN + |p|
            && f[ETHER_OFF_SRC..ETHER_OFF_SRC + 6] == src
            && Read16(f, ETHER_OFF_TYPE) == ETHER_TYPE_IPV4
            && f[ETHER_HEADER_LEN..] == p && f[ETHER_HEADER_LEN..][..|p|] == p
  {
    var f := EtherFrame(dst, src, p);
    assert f[12] == 0x08 && f[13] == 0x00;
  }

  /** The prefix of a frame's payload has the same header fields. */
  lemma PacketFields(frame: seq<byte>)
    requires |frame| >= ETHER_HEADER_LEN + IPV4_HEADER_LEN
    requires ETHER_HEADER_LEN + Read16(frame, ETHER_HEADER_LEN + IPV4_OFF_TOTAL_LEN) <= |frame|
    requires WholeUdp(PacketOf(frame))
    ensures var ip, p := frame[ETHER_HEADER_LEN..], PacketOf(frame);
            && Read16(ip, IPV4_OFF_TOTAL_LEN) == |p|
            && Src(ip) == Src(p) && Dst(ip) == Dst(p)
            && ip[IPV4_OFF_PROTOCOL] == IPV4_PROTOCOL_UDP
  {
    var ip, p := frame[ETHER_HEADER_LEN..], PacketOf(frame);
    assert forall i :: 0 <= i < |p| ==> p[i] == ip[i];
    assert p[IPV4_OFF_SRC..IPV4_OFF_SRC + 4] == ip[IPV4_OFF_SRC..IPV4_OFF_SRC + 4];
    assert p[IPV4_OFF_DST..IPV4_OFF_DST + 4] == ip[IPV4_OFF_DST..IPV4_OFF_DST + 4];
  }

  /** The first relay sends exactly the packets for the overlay, re-addressed from its own overlay address. */
  lemma {:induction false} FirstRelay(a: Config, frame: seq<byte>, neighbor: Option<Mac>)
    requires a.switchSeen && SwitchFrame(a, frame)
    ensures var p, out := PacketOf(frame), FromWifi(a, frame, true, neighbor);
            if Dst(p) == [10, 255, 255, 255] || InSubnet(Dst(p), a.ztIp, a.ztMask)
            then out == Sent(EtherFrame(OverlayMac(a, Dst(p), neighbor), a.ztMac,
                                        Rewritten(p, a.ztIp, OverlayDst(a, Dst(p)))))
            else out == NotRelayed
  {
    hide Rewritten, EtherFrame, Config.Broadcast, Config.IsOverlay, Src, Dst, InSubnet;
    PacketFields(frame);
    OverlayIsSubnet(a, Dst(PacketOf(frame)));
  }

  /** The overlay network carries a frame to the host it is addressed to, or to everybody. */
  predicate CarriedTo(frame: seq<byte>, b: Config) {
    |frame| >= 6 && (frame[..6] == BROADCAST_MAC || frame[..6] == b.ztMac)
  }

  /** What host b makes of a frame on the overlay. */
  function Crosses(first: Outcome, b: Config): Outcome {
    if first.Sent? && CarriedTo(first.frame, b) then OverlayIngress(b, first.frame) else NotRelayed
  }

  /** The sender's neighbour table does not lead elsewhere. */
  predicate LeadsTo(neighbor: Option<Mac>, b: Config) {
    neighbor.None? || neighbor == Some(b.ztMac) || neighbor == Some(BROADCAST_MAC)
  }

  lemma {:induction false} SecondRelay(b: Config, mac: Mac, src: Mac, p: seq<byte>)
    requires b.switchSeen && src != b.ztMac && WholeUdp(p)
    ensures var out := OverlayIngress(b, EtherFrame(mac, src, p));
            if IsLast(Dst(p), b.ztIp, b.ztMask) then
              out == Sent(EtherFrame(BROADCAST_MAC, b.wifiMac, Rewritten(p, Src(p), Dst(p))))
            else if Dst(p) == b.ztIp || Dst(p) == b.switchIp then
              out == Sent(EtherFrame(b.switchMac, b.wifiMac, Rewritten(p, Src(p), b.switchIp)))
            else out == NotRelayed
  {
    hide Rewritten, EtherFrame, Config.Broadcast, Src, Dst, HasUdp, IsLast;
    FrameFields(mac, src, p);
    BroadcastIsLast(b, Dst(p));
  }

  lemma TranslatedTwice(p: seq<byte>, q: seq<byte>, r: seq<byte>)
    requires WholeUdp(p) && Translated(p, q) && WholeUdp(q) && HeaderLen(q) == HeaderLen(p) && Translated(q, r)
    ensures Translated(p, r)
  {
    forall i | 0 <= i < |p| && Fixed(p, i)
      ensures r[i] == p[i]
    {
      assert Fixed(q, i);
    }
  }

  /**
   A whole UDP datagram of Switch A reaches B's Wi-Fi if and only if it is sent to
   the broadcast, or to B's overlay address or B's Switch on the overlay subnet
   while A's neighbour table has nothing or B's MAC for that address. It then
   arrives with both checksums valid and nothing else but the addresses changed.
   */
  lemma {:induction false} AcrossTwoRelays(a: Config, b: Config, frame: seq<byte>, neighbor: Option<Mac>)
    requires Peers(a, b) && SwitchFrame(a, frame)
    ensures var p := PacketOf(frame);
            var second := Crosses(FromWifi(a, frame, true, neighbor), b);
            if Reaches(a, b, Dst(p)) && (IsBroadcast(a, Dst(p)) || LeadsTo(neighbor, b)) then
              exists mac: Mac, q :: second == Sent(EtherFrame(mac, b.wifiMac, q)) && Delivered(a, b, p, q, mac)
            else second == NotRelayed
  {
    hide Rewritten, EtherFrame, FromWifi, OverlayIngress, Translated, HeaderValid, UdpValid;
    hide Config.Broadcast, Config.IsOverlay, InSubnet, IsLast;
    var p, first := PacketOf(frame), FromWifi(a, frame, true, neighbor);
    FirstRelay(a, frame, neighbor);
    BroadcastsAgree(a, b, Dst(p));
    if IsNintendoBroadcast(Dst(p)) || InSubnet(Dst(p), a.ztIp, a.ztMask) {
      var dst, mac := OverlayDst(a, Dst(p)), OverlayMac(a, Dst(p), neighbor);
      var q := Rewritten(p, a.ztIp, dst);
      EtherFields(mac, a.ztMac, q);
      assert CarriedTo(first.frame, b) <==> IsBroadcast(a, Dst(p)) || LeadsTo(neighbor, b);
      if CarriedTo(first.frame, b) {
        RewrittenShape(p, a.ztIp, dst);
        SecondRelay(b, mac, a.ztMac, q);
        if Reaches(a, b, Dst(p)) {
          Received(a, b, p, q, first.frame);
        }
      }
    }
  }

  /** What the two hosts call broadcast, seen from both. */
  lemma BroadcastsAgree(a: Config, b: Config, dst: Ip)
    requires Peers(a, b)
    ensures InSubnet(b.ztIp, a.ztIp, a.ztMask)
    ensures IsLast(dst, a.ztIp, a.ztMask) <==> IsLast(dst, b.ztIp, b.ztMask)
    ensures IsLast(dst, a.ztIp, a.ztMask) ==> InSubnet(dst, a.ztIp, a.ztMask)
    ensures dst == a.Broadcast() <==> IsLast(dst, a.ztIp, a.ztMask)
    ensures IsLast(a.Broadcast(), b.ztIp, b.ztMask)
  {
    hide Bits, Config.Broadcast;
    BroadcastIsLast(a, dst);
    BroadcastIsLast(a, a.Broadcast());
  }

  /** What B's Wi-Fi gets of a packet that crossed. */
  lemma {:induction false} Received(a: Config, b: Config, p: seq<byte>, q: seq<byte>, frame: seq<byte>)
    requires Peers(a, b) && WholeUdp(p) && Reaches(a, b, Dst(p))
    requires Translated(p, q) && WholeUdp(q) && HeaderLen(q) == HeaderLen(p)
    requires Src(q) == a.ztIp && Dst(q) == OverlayDst(a, Dst(p))
    requires OverlayIngress(b, frame) ==
      if IsLast(Dst(q), b.ztIp, b.ztMask) then Sent(EtherFrame(BROADCAST_MAC, b.wifiMac, Rewritten(q, Src(q), Dst(q))))
      else if Dst(q) == b.ztIp || Dst(q) == b.switchIp then
        Sent(EtherFrame(b.switchMac, b.wifiMac, Rewritten(q, Src(q), b.switchIp)))
      else NotRelayed
    ensures exists mac: Mac, r ::
              OverlayIngress(b, frame) == Sent(EtherFrame(mac, b.wifiMac, r)) && Delivered(a, b, p, r, mac)
  {
    hide Rewritten, EtherFrame, OverlayIngress, Translated, HeaderValid, UdpValid;
    hide Config.Broadcast, Config.IsOverlay, InSubnet, IsLast;
    BroadcastsAgree(a, b, Dst(p));
    BroadcastsAgree(a, b, Dst(q));
    var broadcast := IsBroadcast(a, Dst(p));
    var final := if broadcast then Dst(q) else b.switchIp;
    var finalMac := if broadcast then BROADCAST_MAC else b.switchMac;
    var r := Rewritten(q, a.ztIp, final);
    Arrival(p, q, a.ztIp, final);
    assert OverlayIngress(b, frame) == Sent(EtherFrame(finalMac, b.wifiMac, r));
    assert Delivered(a, b, p, r, finalMac);
  }

  /** The second rewrite, seen from the packet before the first. */
  lemma {:induction false} Arrival(p: seq<byte>, q: seq<byte>, src: Ip, dst: Ip)
    requires WholeUdp(p) && Translated(p, q) && WholeUdp(q) && HeaderLen(q) == HeaderLen(p)
    ensures var r := Rewritten(q, src, dst);
            && Translated(p, r) && WholeUdp(r) && HeaderValid(r) && UdpValid(r) && Src(r) == src && Dst(r) == dst
  {
    hide Rewritten, HeaderValid, UdpValid;
    RewrittenShape(q, src, dst);
    RewrittenHeaderValid(q, src, dst);
    RewrittenUdpValid(q, src, dst);
    TranslatedTwice(p, q, Rewritten(q, src, dst));
  }

  /**
   The way back: a datagram that Switch B sends to the source it saw is delivered
   to Switch A, addressed to it, as coming from B's overlay address, if and only
   if B's neighbour table has nothing or A's MAC for A's overlay address.
   */
  lemma {:induction false} ReplyReachesSender(a: Config, b: Config, frame: seq<byte>, q: seq<byte>, mac: Mac,
                           reply: seq<byte>, neighbor: Option<Mac>)
    requires Peers(a, b) && SwitchFrame(a, frame)
    requires Delivered(a, b, PacketOf(frame), q, mac)
    requires SwitchFrame(b, reply) && Dst(PacketOf(reply)) == Src(q)
    requires !IsBroadcast(a, a.ztIp)
    ensures var back := Crosses(FromWifi(b, reply, true, neighbor), a);
            if LeadsTo(neighbor, a) then
              exists r :: && back == Sent(EtherFrame(a.switchMac, a.wifiMac, r))
                          && Translated(PacketOf(reply), r) && WholeUdp(r) && HeaderValid(r) && UdpValid(r)
                          && Src(r) == b.ztIp && Dst(r) == a.switchIp
            else back == NotRelayed
  {
    hide FromWifi, Crosses, Translated, HeaderValid, UdpValid, IsNintendoBroadcast, EtherFrame, Config.IsOverlay;
    PeersAgree(a, b);
    hide Config.Broadcast;
    AcrossTwoRelays(b, a, reply, neighbor);
  }

  /** A stale neighbour entry loses every packet for one host. */
  lemma StaleNeighborLoses(a: Config, b: Config, frame: seq<byte>, other: Mac)
    requires Peers(a, b) && SwitchFrame(a, frame) && !IsBroadcast(a, Dst(PacketOf(frame)))
    requires other != b.ztMac && other != BROADCAST_MAC
    ensures Crosses(FromWifi(a, frame, true, Some(other)), b) == NotRelayed
  {
    hide FromWifi, Crosses, IsBroadcast, Reaches, EtherFrame, Delivered;
    AcrossTwoRelays(a, b, frame, Some(other));
  }
}
