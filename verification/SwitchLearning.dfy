/**
 How the relay learns its console: learn_local_switch of src/lan-play.c over
 every sequence of captured Wi-Fi frames.
 */
module SwitchLearning {
  import opened Bytes
  import opened AddressTranslation
  import Ipv4
  import Relay

  const ETHER_TYPE_ARP := 0x0806
  const ARP_LEN := 28
  const ZERO_MAC: Mac := [0, 0, 0, 0, 0, 0]
  const ZERO_IP: Ip := [0, 0, 0, 0]

  /** What the function reads and never changes; `ouis` is the vendor prefix table. */
  datatype Env = Env(
    relay: Relay.Config,
    ownIp: Ip,
    wifiKnown: bool,
    wifiSubnet: Ip,
    wifiMask: Ip,
    wifiBroadcast: Ip,
    ouis: seq<seq<byte>>
  ) {
    /** is_nintendo_mac. */
    predicate Nintendo(mac: Mac) {
      mac[..3] in ouis
    }

    /** ip_in_subnet with the Wi-Fi subnet. */
    predicate OnWifi(ip: Ip) {
      wifiKnown && forall i :: 0 <= i < 4 ==> Relay.And(ip[i], wifiMask[i]) == Ipv4.Bits(wifiSubnet[i])
    }

    /** No host bit of the overlay mask is set. */
    predicate IsNetwork(ip: Ip) {
      forall i :: 0 <= i < 4 ==> AndNot(ip[i], relay.ztMask[i]) == 0
    }

    /** The addresses a console may claim. */
    predicate Claimable(ip: Ip) {
      && (relay.IsOverlay(ip) || OnWifi(ip))
      && ip != relay.Broadcast() && ip != ownIp
      && !(OnWifi(ip) && (ip == wifiBroadcast || ip == wifiSubnet))
      && !IsNetwork(ip)
    }

    /** An address the hotspot handed out rather than one of the overlay. */
    predicate Dhcp(ip: Ip) {
      OnWifi(ip) && !relay.IsOverlay(ip)
    }
  }

  /** a & (uint8_t)~b. */
  function AndNot(a: byte, b: byte): bv8 {
    Ipv4.Bits(a) & !Ipv4.Bits(b)
  }

  /** A frame's claim to be the console: its address, its MAC, and whether the MAC is first-hand. */
  datatype Claim = Claim(ip: Ip, mac: Mac, direct: bool)

  /** The sender of a well-formed ARP or IPv4 frame. */
  function Sender(env: Env, frame: seq<byte>): Option<Claim> {
    if |frame| < ETHER_HEADER_LEN || frame[6] % 2 == 1 || frame[6..12] == ZERO_MAC then None else
    var type_ := Read16(frame, 12);
    var body := frame[ETHER_HEADER_LEN..];
    if type_ == ETHER_TYPE_ARP then
      if |frame| < ETHER_HEADER_LEN + ARP_LEN || Read16(body, 0) != 1 ||
         Read16(body, 2) != ETHER_TYPE_IPV4 || body[4] != 6 || body[5] != 4 ||
         (Read16(body, 6) != 1 && Read16(body, 6) != 2) ||
         body[8..14] != frame[6..12]
      then None
      else Some(Claim(body[14..18], frame[6..12], true))
    else if type_ == ETHER_TYPE_IPV4 then
      if |frame| < ETHER_HEADER_LEN + IPV4_HEADER_LEN || body[0] / 16 != 4 then None else
      var header, total := body[0] % 16 * 4, Read16(body, IPV4_OFF_TOTAL_LEN);
      if header < IPV4_HEADER_LEN || total < header || total > |frame| - ETHER_HEADER_LEN then None else
      var direct := frame[..6] == BROADCAST_MAC &&
        (body[16..20] == env.relay.Broadcast() || Relay.IsNintendoBroadcast(body[16..20]));
      Some(Claim(body[12..16], frame[6..12], direct))
    else None
  }

  /** An ARP frame as section "Packet format" of RFC 826 lays it out, for Ethernet and IPv4. */
  function ArpFrame(to: Mac, mac: Mac, opcode: u16, senderMac: Mac, ip: Ip, rest: seq<byte>): seq<byte> {
    to + mac + Net16(ETHER_TYPE_ARP) + [0, 1, 8, 0, 6, 4] + Net16(opcode) + senderMac + ip + rest
  }

  predicate StationMac(mac: Mac) {
    mac[0] % 2 == 0 && mac != ZERO_MAC
  }

  /** A request or reply speaks for its sender exactly when the Ethernet source says the same. */
  lemma ArpSender(env: Env, to: Mac, mac: Mac, opcode: u16, senderMac: Mac, ip: Ip, rest: seq<byte>)
    requires |rest| >= 10
    ensures Sender(env, ArpFrame(to, mac, opcode, senderMac, ip, rest)) ==
      if StationMac(mac) && senderMac == mac && (opcode == 1 || opcode == 2) then Some(Claim(ip, mac, true)) else None
  {
    ArpFields(to, mac, opcode, senderMac, ip, rest);
    hide ArpFrame;
  }

  lemma ArpFields(to: Mac, mac: Mac, opcode: u16, senderMac: Mac, ip: Ip, rest: seq<byte>)
    requires |rest| >= 10
    ensures var f := ArpFrame(to, mac, opcode, senderMac, ip, rest);
            && |f| >= ETHER_HEADER_LEN + ARP_LEN && f[6..12] == mac && f[6] == mac[0]
            && Read16(f, 12) == ETHER_TYPE_ARP
            && var body := f[ETHER_HEADER_LEN..];
               && Read16(body, 0) == 1 && Read16(body, 2) == ETHER_TYPE_IPV4 && body[4] == 6 && body[5] == 4
               && Read16(body, 6) == opcode && body[8..14] == senderMac && body[14..18] == ip
  {
    var f := ArpFrame(to, mac, opcode, senderMac, ip, rest);
    var body := f[ETHER_HEADER_LEN..];
    assert body == [0, 1, 8, 0, 6, 4] + Net16(opcode) + senderMac + ip + rest;
    assert body[6..8] == Net16(opcode) && body[8..14] == senderMac && body[14..18] == ip;
    assert body[6] == body[6..8][0] && body[7] == body[6..8][1];
  }

  /** An IPv4 packet with a well-formed header, not longer than the frame. */
  predicate WellFormed(packet: seq<byte>) {
    && |packet| >= IPV4_HEADER_LEN && packet[0] / 16 == 4
    && IPV4_HEADER_LEN <= packet[0] % 16 * 4 <= Read16(packet, IPV4_OFF_TOTAL_LEN) <= |packet|
  }

  /** An IPv4 frame speaks for its source; first-hand only as a broadcast. */
  lemma Ipv4Sender(env: Env, to: Mac, mac: Mac, packet: seq<byte>)
    ensures Sender(env, Relay.EtherFrame(to, mac, packet)) ==
      if StationMac(mac) && WellFormed(packet) then
        Some(Claim(Src(packet), mac, to == BROADCAST_MAC &&
          (Dst(packet) == env.relay.Broadcast() || Relay.IsNintendoBroadcast(Dst(packet)))))
      else None
  {
    hide Relay.Config.Broadcast;
    var f := Relay.EtherFrame(to, mac, packet);
    assert f[..6] == to && f[6..12] == mac && f[6] == mac[0] && f[ETHER_HEADER_LEN..] == packet;
    assert Read16(f, 12) == ETHER_TYPE_IPV4;
  }

  /** The same by the fields of RFC 791: the source address claims, first-hand in a broadcast to the last address. */
  lemma PacketSender(env: Env, to: Mac, mac: Mac, h: Ipv4.Header, payload: seq<byte>)
    requires h.Valid(payload)
    ensures Sender(env, Relay.EtherFrame(to, mac, Ipv4.Packet(h, payload))) ==
      if StationMac(mac) && h.version == 4 then
        Some(Claim(h.src, mac, to == BROADCAST_MAC &&
          (Ipv4.IsLast(h.dst, env.relay.ztIp, env.relay.ztMask) || Relay.IsNintendoBroadcast(h.dst))))
      else None
  {
    hide Ipv4.Packet, Relay.EtherFrame, Sender, Ipv4.IsLast, Relay.Config.Broadcast;
    Ipv4.PacketBytes(h, payload);
    Ipv4Sender(env, to, mac, Ipv4.Packet(h, payload));
    Relay.BroadcastIsLast(env.relay, h.dst);
  }

  /** Every bit of the address outside the mask is zero. */
  predicate NoHostBits(ip: Ip, mask: Ip) {
    forall i :: 0 <= i < 4 ==> Ipv4.Bits(ip[i]) & !Ipv4.Bits(mask[i]) == 0
  }

  /** The address is in the Wi-Fi subnet. */
  predicate InWifi(env: Env, ip: Ip) {
    env.wifiKnown &&
    forall i :: 0 <= i < 4 ==> Ipv4.Bits(ip[i]) & Ipv4.Bits(env.wifiMask[i]) == Ipv4.Bits(env.wifiSubnet[i])
  }

  /**
   The admission tests by what they mean: an address of the overlay or of the
   Wi-Fi subnet, with a host bit of the overlay set, that is neither the last of
   the overlay, nor the relay's own, nor first or last of the Wi-Fi subnet.
   */
  predicate IsHostAddress(env: Env, ip: Ip) {
    && (Ipv4.InSubnet(ip, env.relay.ztIp, env.relay.ztMask) || InWifi(env, ip))
    && !Ipv4.IsLast(ip, env.relay.ztIp, env.relay.ztMask) && !NoHostBits(ip, env.relay.ztMask)
    && ip != env.ownIp
    && (InWifi(env, ip) ==> ip != env.wifiBroadcast && ip != env.wifiSubnet)
  }

  lemma ClaimableIff(env: Env, ip: Ip)
    ensures env.Claimable(ip) <==> IsHostAddress(env, ip)
    ensures env.Dhcp(ip) <==> InWifi(env, ip) && !Ipv4.InSubnet(ip, env.relay.ztIp, env.relay.ztMask)
  {
    hide Ipv4.Bits, Relay.Config.Broadcast, Relay.Config.IsOverlay, Ipv4.IsLast, Ipv4.InSubnet;
    Relay.OverlayIsSubnet(env.relay, ip);
    Relay.BroadcastIsLast(env.relay, ip);
  }

  /** The frames that can change anything. */
  function ClaimOf(env: Env, frame: seq<byte>): Option<Claim> {
    match Sender(env, frame)
    case Some(c) => if env.Claimable(c.ip) && (env.Dhcp(c.ip) ==> env.Nintendo(c.mac)) then Some(c) else None
    case None => None
  }

  /** The fields of struct lan_play that the function updates. */
  datatype Learned = Learned(
    seen: bool,
    ip: Ip,
    mac: Mac,
    confirmed: bool,
    nintendoOui: bool,
    dhcp: bool,
    conflicts: nat
  )

  const NOTHING_LEARNED := Learned(false, ZERO_IP, ZERO_MAC, false, false, false, 0)

  /** learn_local_switch. */
  function Learn(env: Env, s: Learned, frame: seq<byte>): (Learned, bool) {
    match ClaimOf(env, frame)
    case None => (s, false)
    case Some(c) => Take(env, s, c)
  }

  function Take(env: Env, s: Learned, c: Claim): (Learned, bool) {
    if s.seen && c.ip != s.ip then (s, false) else
    var changed := !s.seen || c.mac != s.mac;
    if s.seen && changed && (s.confirmed || !c.direct) then (s.(conflicts := s.conflicts + 1), true) else
    (Learned(
       true, c.ip, c.mac, s.confirmed || c.direct,
       s.nintendoOui || (changed && env.Nintendo(c.mac)),
       if changed then env.Dhcp(c.ip) else s.dhcp,
       s.conflicts), true)
  }

  function Run(env: Env, frames: seq<seq<byte>>): Learned {
    if frames == [] then NOTHING_LEARNED
    else Learn(env, Run(env, frames[..|frames| - 1]), frames[|frames| - 1]).0
  }

  /** The address and MAC the frame makes the relay seed its ARP table with: a MAC newly in force. */
  function Seeds(env: Env, s: Learned, frame: seq<byte>): Option<Claim> {
    var s' := Learn(env, s, frame).0;
    match ClaimOf(env, frame)
    case Some(c) => if s'.seen && s'.mac == c.mac && (!s.seen || s'.mac != s.mac) then Some(c) else None
    case None => None
  }

  /** Everything seeded in the course of a capture. */
  function Seeded(env: Env, frames: seq<seq<byte>>): seq<Claim> {
    if frames == [] then [] else
    var before, frame := frames[..|frames| - 1], frames[|frames| - 1];
    Seeded(env, before) + match Seeds(env, Run(env, before), frame) case Some(c) => [c] case None => []
  }

  /** The claims a capture contains, in order. */
  function Claims(env: Env, frames: seq<seq<byte>>): seq<Claim> {
    if frames == [] then [] else
    var before := Claims(env, frames[..|frames| - 1]);
    match ClaimOf(env, frames[|frames| - 1])
    case Some(c) => before + [c]
    case None => before
  }

  /** The claims of one address. */
  function OfIp(claims: seq<Claim>, ip: Ip): (r: seq<Claim>)
    ensures forall c <- r :: c.ip == ip
    ensures claims != [] && claims[0].ip == ip ==> r != [] && r[0] == claims[0]
  {
    if claims == [] then [] else
    var before, last := OfIp(claims[..|claims| - 1], ip), claims[|claims| - 1];
    if last.ip == ip then before + [last] else before
  }

  /** The first first-hand claim, or |claims|. */
  function FirstDirect(claims: seq<Claim>): (k: nat)
    ensures k <= |claims|
    ensures k < |claims| ==> claims[k].direct
    ensures forall i :: 0 <= i < k ==> !claims[i].direct
  {
    if claims == [] || claims[0].direct then 0 else 1 + FirstDirect(claims[1..])
  }

  /** Claim i named another MAC than the one in force. */
  predicate Conflicting(claims: seq<Claim>, i: nat)
    requires i < |claims|
  {
    var k := FirstDirect(claims);
    claims[i].mac != (if i < k then claims[0].mac else claims[k].mac)
  }

  function Conflicts(claims: seq<Claim>): set<nat> {
    set i: nat | i < |claims| && Conflicting(claims, i)
  }

  /**
   What the function is for: the console is the first claimed address; its MAC
   is that of the first first-hand claim of that address, or the first claim at
   all while there is none.
   */
  function Expected(env: Env, claims: seq<Claim>): Learned {
    if claims == [] then NOTHING_LEARNED else
    var own := OfIp(claims, claims[0].ip);
    var k := FirstDirect(own);
    var mac := if k < |own| then own[k].mac else own[0].mac;
    Learned(true, own[0].ip, mac, k < |own|, env.Nintendo(own[0].mac) || env.Nintendo(mac), env.Dhcp(own[0].ip),
            |Conflicts(own)|)
  }

  lemma {:induction false} FirstDirectSnoc(claims: seq<Claim>, c: Claim)
    ensures FirstDirect(claims + [c]) ==
      if FirstDirect(claims) < |claims| || c.direct then FirstDirect(claims) else |claims| + 1
  {
    var all, k := claims + [c], FirstDirect(claims);
    var k' := FirstDirect(all);
    if k < |claims| {
      assert all[k].direct;
      assert k' == k;
    } else if c.direct {
      assert all[|claims|].direct;
      assert k' == k;
    }
  }

  lemma ConflictingSnoc(claims: seq<Claim>, c: Claim, i: nat)
    requires i < |claims|
    ensures Conflicting(claims + [c], i) == Conflicting(claims, i)
  {
    FirstDirectSnoc(claims, c);
  }

  /** A new claim conflicts when it names another MAC and is not the first first-hand one. */
  predicate NewConflict(claims: seq<Claim>, c: Claim)
    requires claims != []
  {
    var k := FirstDirect(claims);
    c.mac != (if k < |claims| then claims[k].mac else claims[0].mac) && (k < |claims| || !c.direct)
  }

  lemma LastConflicting(claims: seq<Claim>, c: Claim)
    requires claims != []
    ensures Conflicting(claims + [c], |claims|) <==> NewConflict(claims, c)
  {
    FirstDirectSnoc(claims, c);
  }

  lemma ConflictsSnoc(claims: seq<Claim>, c: Claim)
    requires claims != []
    ensures |Conflicts(claims + [c])| == |Conflicts(claims)| + if NewConflict(claims, c) then 1 else 0
  {
    hide Conflicting, NewConflict;
    var all, n: nat := claims + [c], |claims|;
    LastConflicting(claims, c);
    forall i: nat | i < n
      ensures i in Conflicts(all) <==> i in Conflicts(claims)
    {
      ConflictingSnoc(claims, c, i);
    }
    assert n !in Conflicts(claims);
    if NewConflict(claims, c) {
      assert Conflicts(all) == Conflicts(claims) + {n};
    } else {
      assert Conflicts(all) == Conflicts(claims);
    }
  }

  lemma OfIpSnoc(claims: seq<Claim>, c: Claim, ip: Ip)
    ensures OfIp(claims + [c], ip) == if c.ip == ip then OfIp(claims, ip) + [c] else OfIp(claims, ip)
  {
    assert (claims + [c])[..|claims|] == claims;
  }

  /** The first claim is taken as it is. */
  lemma ExpectedFirst(env: Env, c: Claim)
    ensures Expected(env, [c]) == Take(env, NOTHING_LEARNED, c).0
  {
    hide Conflicts, Env.Nintendo, Env.Dhcp;
    assert [c] == [] + [c];
    OfIpSnoc([], c, c.ip);
    FirstDirectSnoc([], c);
    NoConflict(c);
  }

  /** One more claim. */
  lemma ExpectedSnoc(env: Env, claims: seq<Claim>, c: Claim)
    ensures Expected(env, claims + [c]) == Take(env, Expected(env, claims), c).0
  {
    hide Conflicts, Env.Nintendo, Env.Dhcp, OfIp;
    if claims == [] {
      assert claims + [c] == [c];
      ExpectedFirst(env, c);
    } else {
      var ip := claims[0].ip;
      var own := OfIp(claims, ip);
      assert (claims + [c])[0] == claims[0];
      OfIpSnoc(claims, c, ip);
      if c.ip == ip {
        FirstDirectSnoc(own, c);
        ConflictsSnoc(own, c);
      }
    }
  }

  lemma NoConflict(c: Claim)
    ensures |Conflicts([c])| == 0
  {
    assert Conflicts([c]) == {};
  }

  /** After every capture, the relay has learned exactly what it should. */
  lemma {:induction false} RunIsExpected(env: Env, frames: seq<seq<byte>>)
    ensures Run(env, frames) == Expected(env, Claims(env, frames))
  {
    hide Expected, ClaimOf;
    if frames == [] {
      ExpectedEmpty(env);
    } else {
      var before := frames[..|frames| - 1];
      RunIsExpected(env, before);
      match ClaimOf(env, frames[|frames| - 1])
      case Some(c) => ExpectedSnoc(env, Claims(env, before), c);
      case None =>
    }
  }

  lemma ExpectedEmpty(env: Env)
    ensures Expected(env, []) == NOTHING_LEARNED
  {
  }

  /** The invariant behind the trust in a learned console. */
  predicate Sound(env: Env, s: Learned) {
    && (s.confirmed ==> s.seen)
    && (s.dhcp ==> s.seen && env.Nintendo(s.mac))
    && (s.seen ==> env.Claimable(s.ip) && s.dhcp == env.Dhcp(s.ip) && s.mac[0] % 2 == 0 && s.mac != ZERO_MAC)
  }

  lemma LearnKeepsSound(env: Env, s: Learned, frame: seq<byte>)
    requires Sound(env, s)
    ensures Sound(env, Learn(env, s, frame).0)
  {
    hide Env.Nintendo, Env.Dhcp, Env.Claimable;
    if ClaimOf(env, frame).Some? {
      SenderMac(env, frame);
    }
  }

  lemma SenderMac(env: Env, frame: seq<byte>)
    requires Sender(env, frame).Some?
    ensures var mac := Sender(env, frame).value.mac; mac[0] % 2 == 0 && mac != ZERO_MAC
  {
    assert frame[6..12][0] == frame[6];
  }

  lemma {:induction false} RunIsSound(env: Env, frames: seq<seq<byte>>)
    ensures Sound(env, Run(env, frames))
  {
    hide Learn, Sound;
    if frames == [] {
      NothingIsSound(env);
    } else {
      RunIsSound(env, frames[..|frames| - 1]);
      LearnKeepsSound(env, Run(env, frames[..|frames| - 1]), frames[|frames| - 1]);
    }
  }

  /** In every reachable state the console has a host address, and a hotspot's address only with a Nintendo MAC. */
  lemma {:induction false} LearnedIsHost(env: Env, frames: seq<seq<byte>>)
    ensures var s := Run(env, frames);
            s.seen ==> && IsHostAddress(env, s.ip) && StationMac(s.mac)
                       && (!Ipv4.InSubnet(s.ip, env.relay.ztIp, env.relay.ztMask) ==> s.mac[..3] in env.ouis)
  {
    RunIsSound(env, frames);
    hide Run, IsHostAddress, Env.Claimable, Env.Dhcp, Ipv4.InSubnet;
    var s := Run(env, frames);
    ClaimableIff(env, s.ip);
    if s.seen {
      HostIsLocal(env, s.ip);
    }
  }

  lemma HostIsLocal(env: Env, ip: Ip)
    requires IsHostAddress(env, ip)
    ensures Ipv4.InSubnet(ip, env.relay.ztIp, env.relay.ztMask) || InWifi(env, ip)
  {
  }

  lemma NothingIsSound(env: Env)
    ensures Sound(env, NOTHING_LEARNED)
  {
  }

  /** What no later frame can take back. */
  predicate Follows(s: Learned, t: Learned) {
    && (s.seen ==> t.seen && t.ip == s.ip && t.dhcp == s.dhcp)
    && (s.confirmed ==> t.confirmed && t.mac == s.mac)
    && (s.seen && t.mac != s.mac ==> !s.confirmed && t.confirmed)
    && (s.nintendoOui ==> t.nintendoOui)
    && s.conflicts <= t.conflicts
  }

  lemma LearnFollows(env: Env, s: Learned, frame: seq<byte>)
    requires Sound(env, s)
    ensures Follows(s, Learn(env, s, frame).0)
  {
    hide Env.Nintendo, Env.Dhcp, Env.Claimable, Sender;
  }

  lemma {:induction false} RunFollows(env: Env, frames: seq<seq<byte>>, more: seq<seq<byte>>)
    ensures Follows(Run(env, frames), Run(env, frames + more))
    decreases |more|
  {
    hide Learn, Sound;
    if more == [] {
      assert frames + more == frames;
    } else {
      var before := more[..|more| - 1];
      RunFollows(env, frames, before);
      RunIsSound(env, frames + before);
      LearnFollows(env, Run(env, frames + before), more[|more| - 1]);
      assert (frames + more)[..|frames + more| - 1] == frames + before;
    }
  }

  /**
   Once a console is learned its address never changes and its MAC changes at
   most once: of three moments, two neighbouring ones agree.
   */
  lemma MacChangesAtMostOnce(env: Env, a: seq<seq<byte>>, b: seq<seq<byte>>, c: seq<seq<byte>>)
    requires Run(env, a).seen
    ensures Run(env, a).ip == Run(env, a + b).ip == Run(env, a + b + c).ip
    ensures Run(env, a).mac == Run(env, a + b).mac || Run(env, a + b).mac == Run(env, a + b + c).mac
    ensures Run(env, a).confirmed ==> Run(env, a).mac == Run(env, a + b).mac
  {
    hide Run;
    RunFollows(env, a, b);
    RunFollows(env, a + b, c);
  }

  /**
   The ARP table is seeded at most twice in a run, and the last time always with
   the address and MAC in force.
   */
  lemma {:induction false} SeededIsInForce(env: Env, frames: seq<seq<byte>>)
    ensures var s, seeded := Run(env, frames), Seeded(env, frames);
            && (s.seen <==> seeded != [])
            && (s.seen ==> seeded[|seeded| - 1].ip == s.ip && seeded[|seeded| - 1].mac == s.mac)
            && |seeded| <= 2 && (|seeded| == 2 ==> s.confirmed)
  {
    hide Env.Nintendo, Env.Dhcp, Env.Claimable, Sender, ClaimOf;
    if frames != [] {
      SeededIsInForce(env, frames[..|frames| - 1]);
    }
  }

  /**
   The vendor flag describes some MAC that was in force, not always the present
   one: it is wrong exactly when the first claim came from a Nintendo MAC and the
   first first-hand claim of that address from another vendor's.
   */
  lemma {:induction false} VendorFlag(env: Env, frames: seq<seq<byte>>)
    requires Claims(env, frames) != []
    ensures var s, claims := Run(env, frames), Claims(env, frames);
            var own := OfIp(claims, claims[0].ip);
            var k := FirstDirect(own);
            s.nintendoOui != env.Nintendo(s.mac) <==>
            k < |own| && env.Nintendo(own[0].mac) && !env.Nintendo(own[k].mac)
  {
    RunIsExpected(env, frames);
    hide Run, Claims, Conflicts, Env.Nintendo;
  }

  /** Over every capture, a frame is passed on exactly when it speaks for the first address ever claimed. */
  lemma {:induction false} PassedOnIff(env: Env, frames: seq<seq<byte>>, frame: seq<byte>)
    ensures var claims, c := Claims(env, frames), ClaimOf(env, frame);
            Learn(env, Run(env, frames), frame).1 <==> c.Some? && (claims == [] || c.value.ip == claims[0].ip)
  {
    RunIsExpected(env, frames);
    hide Run, ClaimOf, Claims;
  }

  /** Such captures exist: unicast traffic under a Nintendo MAC, then an ARP claim under another. */
  lemma VendorFlagWrong(env: Env, to: Mac, nintendo: Mac, other: Mac, packet: seq<byte>, rest: seq<byte>)
    requires StationMac(nintendo) && StationMac(other) && env.Nintendo(nintendo) && !env.Nintendo(other)
    requires to != BROADCAST_MAC && WellFormed(packet) && |rest| >= 10
    requires env.Claimable(Src(packet)) && !env.Dhcp(Src(packet))
    ensures var s := Run(env, [Relay.EtherFrame(to, nintendo, packet),
                               ArpFrame(to, other, 1, other, Src(packet), rest)]);
            s.nintendoOui && s.mac == other
  {
    var ip := Src(packet);
    var f, g := Relay.EtherFrame(to, nintendo, packet), ArpFrame(to, other, 1, other, ip, rest);
    Ipv4Sender(env, to, nintendo, packet);
    ArpSender(env, to, other, 1, other, ip, rest);
    hide Sender, Env.Claimable, Env.Dhcp, Env.Nintendo, Relay.EtherFrame, ArpFrame, WellFormed, StationMac;
    assert ClaimOf(env, f) == Some(Claim(ip, nintendo, false)) && ClaimOf(env, g) == Some(Claim(ip, other, true));
    hide ClaimOf;
    var one: seq<seq<byte>> := [f];
    assert [f, g][..1] == one && one[..0] == [];
    assert Run(env, [f]) == Take(env, NOTHING_LEARNED, Claim(ip, nintendo, false)).0;
    assert Run(env, [f, g]) == Take(env, Run(env, [f]), Claim(ip, other, true)).0;
  }

  /** struct lan_play. */
  class Learner {
    const env: Env
    var switchSeen: bool
    var switchIp: Ip
    var switchMac: Mac
    var switchMacConfirmed: bool
    var switchNintendoOui: bool
    var switchDhcp: bool
    var switchMacConflicts: nat

    function Model(): Learned
      reads this
    {
      Learned(switchSeen, switchIp, switchMac, switchMacConfirmed, switchNintendoOui, switchDhcp, switchMacConflicts)
    }

    constructor (env: Env)
      ensures this.env == env && Model() == Run(env, [])
    {
      this.env := env;
      switchSeen, switchIp, switchMac := false, ZERO_IP, ZERO_MAC;
      switchMacConfirmed, switchNintendoOui, switchDhcp, switchMacConflicts := false, false, false, 0;
    }

    /** is_nintendo_mac: the scan of the prefix table. */
    method IsNintendoMac(mac: Mac) returns (r: bool)
      ensures r <==> env.Nintendo(mac)
    {
      for i := 0 to |env.ouis|
        invariant mac[..3] !in env.ouis[..i]
      {
        if mac[..3] == env.ouis[i] { return true; }
      }
      return false;
    }

    /** ip_in_subnet. */
    method InWifiSubnet(ip: Ip) returns (r: bool)
      ensures r <==> env.OnWifi(ip)
    {
      if !env.wifiKnown { return false; }
      for i := 0 to 4
        invariant forall j :: 0 <= j < i ==> Relay.And(ip[j], env.wifiMask[j]) == Ipv4.Bits(env.wifiSubnet[j])
      {
        if Relay.And(ip[i], env.wifiMask[i]) != Ipv4.Bits(env.wifiSubnet[i]) { return false; }
      }
      return true;
    }

    method IsNetworkAddress(ip: Ip) returns (network: bool)
      ensures network <==> env.IsNetwork(ip)
    {
      network := true;
      for i := 0 to 4
        invariant network <==> forall j :: 0 <= j < i ==> AndNot(ip[j], env.relay.ztMask[j]) == 0
      {
        if AndNot(ip[i], env.relay.ztMask[i]) != 0 { network := false; }
      }
    }

    /** The tests between parsing and the first use of the learned state. */
    method Admit(c: Claim) returns (ok: bool, dhcp: bool)
      ensures ok <==> env.Claimable(c.ip) && (env.Dhcp(c.ip) ==> env.Nintendo(c.mac))
      ensures ok ==> dhcp == env.Dhcp(c.ip)
    {
      var wifi := InWifiSubnet(c.ip);
      var network := IsNetworkAddress(c.ip);
      var nintendo := IsNintendoMac(c.mac);
      hide Env.OnWifi, Env.IsNetwork, Env.Nintendo, Relay.Config.IsOverlay, Relay.Config.Broadcast;
      var zt := env.relay.IsOverlay(c.ip);
      dhcp := wifi && !zt;
      if (!zt && !wifi) || c.ip == env.relay.Broadcast() || c.ip == env.ownIp { return false, dhcp; }
      if wifi && (c.ip == env.wifiBroadcast || c.ip == env.wifiSubnet) { return false, dhcp; }
      if network { return false, dhcp; }
      if dhcp && !nintendo { return false, dhcp; }
      return true, dhcp;
    }

    /** learn_local_switch, from the parsed sender on. */
    method LearnFrame(frame: seq<byte>) returns (forward: bool, seeded: Option<Claim>)
      modifies this
      ensures (Model(), forward) == Learn(env, old(Model()), frame)
      ensures seeded == Seeds(env, old(Model()), frame)
    {
      hide Sender, Env.Claimable, Env.Dhcp, Env.Nintendo;
      seeded := None;
      var sender := Sender(env, frame);
      if sender.None? { return false, None; }
      var c := sender.value;
      var ok, dhcp := Admit(c);
      if !ok { return false, None; }
      if switchSeen && c.ip != switchIp { return false, None; }
      var changed := !switchSeen || c.mac != switchMac;
      if switchSeen && changed && (switchMacConfirmed || !c.direct) {
        switchMacConflicts := switchMacConflicts + 1;
        return true, None;
      }
      switchIp, switchMac, switchSeen := c.ip, c.mac, true;
      switchMacConfirmed := switchMacConfirmed || c.direct;
      if changed {
        seeded := Some(c);
        switchDhcp := dhcp;
        var nintendo := IsNintendoMac(c.mac);
        if nintendo { switchNintendoOui := true; }
      }
      forward := true;
    }
  }
}
