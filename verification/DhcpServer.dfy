/**
 src/dhcp-server.c as it is written: loops over the lease array, which the
 handler changes in place. Every method performs the corresponding function of Dhcp.
 */
module DhcpServer {
  import opened Bytes
  import opened Dhcp
  import opened DhcpRelease

  class Server {
    const config: Config
    const leases: array<Lease>
    var offersSent: nat
    var acksSent: nat
    var naksSent: nat
    var ignoredNonNintendo: nat
    var lostRaces: nat

    ghost predicate Valid()
      reads this
    {
      leases.Length == DHCP_LEASE_COUNT && config.Valid()
    }

    ghost function Model(): State
      reads this, leases
    {
      State(leases[..], offersSent, acksSent, naksSent, ignoredNonNintendo, lostRaces)
    }

    /** dhcp_server_init. */
    constructor (config: Config)
      requires config.Valid()
      ensures Valid() && Model() == Init() && this.config == config && fresh(leases)
    {
      this.config := config;
      leases := new Lease[DHCP_LEASE_COUNT](_ => FREE);
      offersSent, acksSent, naksSent, ignoredNonNintendo, lostRaces := 0, 0, 0, 0, 0;
      new;
      assert leases[..] == NoLeases();
    }

    method SweepExpired(now: int)
      requires Valid()
      modifies leases
      ensures leases[..] == Sweep(old(leases[..]), now)
    {
      for i := 0 to DHCP_LEASE_COUNT
        invariant forall j :: 0 <= j < i ==>
                    leases[j] == if old(leases[j]).used && old(leases[j]).expires <= now then FREE else old(leases[j])
        invariant forall j :: i <= j < DHCP_LEASE_COUNT ==> leases[j] == old(leases[j])
      {
        if leases[i].used && leases[i].expires <= now {
          leases[i] := FREE;
        }
      }
    }

    method FindClient(mac: Mac) returns (i: nat)
      requires Valid()
      ensures i == FindMac(leases[..], mac)
    {
      i := 0;
      while i < DHCP_LEASE_COUNT
        invariant 0 <= i <= DHCP_LEASE_COUNT
        invariant forall j :: 0 <= j < i ==> !(leases[j].used && leases[j].mac == mac)
      {
        if leases[i].used && leases[i].mac == mac {
          break;
        }
        i := i + 1;
      }
      ghost var f := FindMac(leases[..], mac);
      assert f < DHCP_LEASE_COUNT ==> leases[..][f].used && leases[..][f].mac == mac;
      assert i < DHCP_LEASE_COUNT ==> leases[..][i].used && leases[..][i].mac == mac;
    }

    /** The loop that looks for a live lease of an address; `except` skips the client's own. */
    method IsTaken(ip: u32, now: int, except: Option<Mac>) returns (taken: bool)
      requires Valid()
      ensures taken ==
        if except.Some? then TakenByOther(leases[..], ip, except.value, now) else Taken(leases[..], ip, now)
    {
      taken := false;
      for i := 0 to DHCP_LEASE_COUNT
        invariant !taken
        invariant forall j :: 0 <= j < i ==>
                    !(leases[j].Live(now) && leases[j].ip == ip && (except.None? || leases[j].mac != except.value))
      {
        if leases[i].used && leases[i].expires > now && leases[i].ip == ip &&
           (except.None? || leases[i].mac != except.value) {
          assert leases[..][i].Live(now);
          return true;
        }
      }
      assert forall j :: 0 <= j < |leases[..]| ==> leases[..][j] == leases[j];
    }

    /** dhcp_pick_ip. */
    method PickIp(e: Event) returns (ip: Option<u32>)
      requires Valid()
      ensures ip == Pick(config, leases[..], e)
    {
      hide PickWindow, Config.Network;
      var own := FindClient(e.req.mac);
      if own < DHCP_LEASE_COUNT && leases[own].expires > e.readAt {
        return Some(leases[own].ip);
      }
      var taken := IsTaken(config.self, e.readAt, Some(e.req.mac));
      if !taken && config.self !in e.arp && (e.switchIp.None? || config.self == e.switchIp.value) {
        return Some(config.self);
      }
      ip := PickFromWindow(e);
    }

    /** The loop over the 24 addresses below the broadcast. */
    method PickFromWindow(e: Event) returns (ip: Option<u32>)
      requires Valid()
      ensures ip == PickWindow(config, leases[..], e, 1)
    {
      hide Config.Network, Taken;
      var k := 1;
      while k <= WINDOW && Candidate(config, k) > config.Network()
        invariant 1 <= k <= WINDOW + 1
        invariant PickWindow(config, leases[..], e, 1) == PickWindow(config, leases[..], e, k)
      {
        var cand := Candidate(config, k);
        var taken := IsTaken(cand, e.readAt, None);
        if cand != config.gateway && cand != config.self && e.switchIp != Some(cand) && cand !in e.arp && !taken {
          return Some(cand);
        }
        k := k + 1;
      }
      return None;
    }

    method FreeSlot() returns (i: nat)
      requires Valid()
      ensures i == FindFree(leases[..])
    {
      i := 0;
      while i < DHCP_LEASE_COUNT
        invariant 0 <= i <= DHCP_LEASE_COUNT
        invariant forall j :: 0 <= j < i ==> leases[j].used
      {
        if !leases[i].used {
          break;
        }
        i := i + 1;
      }
      ghost var f := FindFree(leases[..]);
      assert f < DHCP_LEASE_COUNT ==> !leases[..][f].used;
      assert i < DHCP_LEASE_COUNT ==> !leases[..][i].used;
    }

    /** dhcp_claim. */
    method ClaimLease(mac: Mac, ip: u32, offered: bool, now: int) returns (ok: bool)
      requires Valid()
      modifies leases
      ensures var r := Claim(old(leases[..]), mac, ip, offered, now);
              ok == r.Some? && leases[..] == if ok then r.value else old(leases[..])
    {
      var i := FindClient(mac);
      if i == DHCP_LEASE_COUNT {
        i := FreeSlot();
        if i == DHCP_LEASE_COUNT {
          return false;
        }
      }
      leases[i] := Lease(true, mac, ip, now + (if offered then DHCP_OFFER_TIME else DHCP_LEASE_TIME), offered);
      assert leases[..] == old(leases[..])[i := leases[i]];
      return true;
    }

    method HandleDiscover(e: Event) returns (reply: Option<Reply>)
      requires Valid()
      modifies this, leases
      ensures Valid() && Outcome(Model(), reply) == Discover(config, old(Model()), e)
    {
      hide Pick, Claim;
      var ip := PickIp(e);
      if ip.None? {
        return None;
      }
      var ok := ClaimLease(e.req.mac, ip.value, true, e.claimAt);
      if !ok {
        return None;
      }
      if e.sendOk {
        offersSent := offersSent + 1;
      }
      return Some(Reply(Offer, e.req.mac, ip.value, e.readAt, e.claimAt, e.sendOk));
    }

    method HandleRequest(e: Event) returns (reply: Option<Reply>)
      requires Valid()
      modifies this, leases
      ensures Valid() && Outcome(Model(), reply) == Renew(config, old(Model()), e)
    {
      hide Config.Network;
      var i := FindClient(e.req.mac);
      if i < DHCP_LEASE_COUNT && leases[i].expires > e.readAt && e.req.HasWant() && e.req.Want() == leases[i].ip {
        var ip := leases[i].ip;
        var ok := ClaimLease(e.req.mac, ip, false, e.claimAt);
        if e.sendOk {
          acksSent := acksSent + 1;
        }
        return Some(Reply(Ack, e.req.mac, ip, e.readAt, e.claimAt, e.sendOk));
      }
      if e.req.HasWant() && config.InSubnet(e.req.Want()) {
        if e.sendOk {
          naksSent := naksSent + 1;
        }
        return Some(Reply(Nak, e.req.mac, 0, e.readAt, e.claimAt, e.sendOk));
      }
      if e.req.HasWant() {
        lostRaces := lostRaces + 1;
      }
      return None;
    }

    /** dhcp_server_consume. */
    method ConsumeRequest(e: Event) returns (reply: Option<Reply>)
      requires Valid()
      modifies this, leases
      ensures Valid() && Outcome(Model(), reply) == Consume(config, old(Model()), e)
      ensures OnePerMac(old(leases[..])) && IsRelease(config, e) ==>
                Absent(leases[..], e.req.mac) && OthersKept(old(leases[..]), leases[..], e.req.mac, e.sweepAt)
    {
      if OnePerMac(leases[..]) && IsRelease(config, e) {
        ReleaseFrees(config, Model(), e);
      }
      hide Discover, Renew, Sweep, OnePerMac, Absent, OthersKept;
      SweepExpired(e.sweepAt);
      if !config.IsNintendo(e.req.mac) {
        ignoredNonNintendo := ignoredNonNintendo + 1;
        return None;
      }
      if e.req.msgType == DHCP_MSG_DISCOVER {
        reply := HandleDiscover(e);
        return;
      }
      if e.req.msgType == DHCP_MSG_REQUEST {
        reply := HandleRequest(e);
        return;
      }
      if e.req.msgType == DHCP_MSG_RELEASE {
        var i := FindClient(e.req.mac);
        if i < DHCP_LEASE_COUNT {
          ghost var before := leases[..];
          leases[i] := FREE;
          assert leases[..] == before[i := FREE];
        }
      }
      return None;
    }
  }
}
