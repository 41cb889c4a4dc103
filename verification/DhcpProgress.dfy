/**
 What a console gets from the lease allocator of src/dhcp-server.c: which
 requests are answered, and that an offer is honoured whatever others do.
 */
module DhcpProgress {
  import opened Bytes
  import opened Dhcp

  /** The client has an unexpired lease of the address it asks for. */
  predicate OwnsWanted(leases: seq<Lease>, e: Event) {
    e.req.HasWant() && Holds(leases, e.req.mac, e.req.Want(), e.readAt + 1)
  }

  /**
   A console's REQUEST is acknowledged exactly when it owns what it asks for,
   refused exactly when that is another address of the overlay subnet, and
   otherwise left to the server it was meant for.
   */
  lemma RequestAnswer(c: Config, s: State, e: Event)
    requires c.Valid() && OnePerMac(s.leases) && e.Ordered()
    requires c.IsNintendo(e.req.mac) && e.req.msgType == DHCP_MSG_REQUEST
    ensures var r := Consume(c, s, e).reply;
            if OwnsWanted(s.leases, e) then
              r == Some(Reply(Ack, e.req.mac, e.req.Want(), e.readAt, e.claimAt, e.sendOk))
            else if e.req.HasWant() && c.InSubnet(e.req.Want()) then
              r == Some(Reply(Nak, e.req.mac, 0, e.readAt, e.claimAt, e.sendOk))
            else r == None
  {
    var swept := Sweep(s.leases, e.sweepAt);
    var i := FindMac(swept, e.req.mac);
    hide Sweep, FindMac, Config.InSubnet, Config.IsNintendo;
    if OwnsWanted(s.leases, e) {
      var k :| 0 <= k < |s.leases| && s.leases[k].used && s.leases[k].mac == e.req.mac
        && s.leases[k].ip == e.req.Want() && s.leases[k].expires >= e.readAt + 1;
      assert swept[k] == s.leases[k];
      assert i == k;
    }
  }

  lemma OfferHolds(c: Config, s: State, e: Event)
    requires c.Valid()
    ensures var r := Consume(c, s, e);
            r.reply.Some? && r.reply.value.kind == Offer ==>
              Holds(r.state.leases, e.req.mac, r.reply.value.ip, e.claimAt + DHCP_OFFER_TIME)
  {
    OfferReserves(c, s, e);
    hide Consume;
  }

  /** Between an OFFER and the end of its reservation, the client keeps holding the address. */
  lemma {:induction false} HeldSinceOffer(c: Config, run: seq<Event>, i: nat, j: nat)
    requires c.Valid() && Ordered(run) && i < j <= |run|
    requires var r := ReplyAt(c, run, i); r.Some? && r.value.kind == Offer
    requires forall k :: i < k < j ==>
      !GivesUp(run[k], run[i].req.mac) && run[k].readAt < run[i].claimAt + DHCP_OFFER_TIME
    ensures Holds(After(c, run, j).leases, run[i].req.mac, ReplyAt(c, run, i).value.ip,
                  run[i].claimAt + DHCP_OFFER_TIME)
  {
    hide Consume, Holds, Inv;
    if j == i + 1 {
      OfferHolds(c, After(c, run, i), run[i]);
    } else {
      HeldSinceOffer(c, run, i, j - 1);
      ReachableInv(c, run, j - 1);
      ConsumeKeepsHolds(c, After(c, run, j - 1), run[j - 1], ClockAfter(run, j - 1), run[i].req.mac,
                        ReplyAt(c, run, i).value.ip, run[i].claimAt + DHCP_OFFER_TIME);
    }
  }

  /**
   An OFFER is honoured: if the client asks for the offered address within two
   minutes, having sent no other DISCOVER or RELEASE, it is acknowledged,
   whatever other clients have sent in between.
   */
  lemma OfferIsHonoured(c: Config, run: seq<Event>, i: nat, j: nat)
    requires c.Valid() && Ordered(run) && i < j < |run|
    requires ReplyAt(c, run, i).Some? && ReplyAt(c, run, i).value.kind == Offer
    requires run[j].req.mac == run[i].req.mac && run[j].req.msgType == DHCP_MSG_REQUEST
    requires run[j].req.HasWant() && run[j].req.Want() == ReplyAt(c, run, i).value.ip
    requires run[j].readAt < run[i].claimAt + DHCP_OFFER_TIME
    requires forall k :: i < k < j ==> !GivesUp(run[k], run[i].req.mac)
    ensures ReplyAt(c, run, j).Some? && ReplyAt(c, run, j).value.kind == Ack
    ensures ReplyAt(c, run, j).value.ip == ReplyAt(c, run, i).value.ip
    ensures ReplyAt(c, run, j).value.mac == run[i].req.mac
  {
    OfferToConsole(c, After(c, run, i), run[i]);
    hide Consume;
    forall k | i < k < j
      ensures run[k].readAt < run[i].claimAt + DHCP_OFFER_TIME
    {
      assert run[k].Ordered() && run[j].Ordered();
      assert run[k].claimAt <= run[j].sweepAt;
    }
    HeldSinceOffer(c, run, i, j);
    ReachableInv(c, run, j);
    RequestAnswer(c, After(c, run, j), run[j]);
  }

  lemma OfferToConsole(c: Config, s: State, e: Event)
    requires c.Valid()
    ensures var r := Consume(c, s, e).reply; r.Some? ==> c.IsNintendo(e.req.mac)
  {
  }

  /** All leases belong to other clients and have not expired. */
  predicate AllLeased(leases: seq<Lease>, e: Event) {
    forall i :: 0 <= i < |leases| ==>
      leases[i].used && leases[i].mac != e.req.mac && leases[i].expires > e.sweepAt
  }

  /**
   With the whole window below the broadcast, a console's DISCOVER is answered
   with an OFFER unless all eight leases are taken by others, or 13 addresses of
   the window are live in the ARP cache.
   */
  lemma DiscoverIsAnswered(c: Config, s: State, e: Event)
    requires c.Valid() && c.Broadcast() > c.Network() + WINDOW && |s.leases| == DHCP_LEASE_COUNT
    requires c.IsNintendo(e.req.mac) && e.req.msgType == DHCP_MSG_DISCOVER
    ensures var r := Consume(c, s, e).reply;
            || (r.Some? && r.value.kind == Offer && r.value.mac == e.req.mac)
            || AllLeased(s.leases, e)
            || |Window(c, WINDOW) * (set ip | ip in e.arp :: ip as int)| >= 13
  {
    var swept := Sweep(s.leases, e.sweepAt);
    if Pick(c, swept, e).None? {
      hide Pick, Sweep, Window;
      ExhaustedOnlyByArp(c, swept, e);
    } else if ClaimSlot(swept, e.req.mac) == |swept| {
      hide Pick, Sweep, Window;
      forall i | 0 <= i < |s.leases|
        ensures s.leases[i].used && s.leases[i].mac != e.req.mac && s.leases[i].expires > e.sweepAt
      {
        assert swept[i].used && !(swept[i].used && swept[i].mac == e.req.mac);
      }
    }
  }

  /** The very first console is offered the relay's own overlay address, and gets it. */
  lemma FirstConsole(c: Config, discover: Event, request: Event)
    requires c.Valid() && Ordered([discover, request])
    requires c.IsNintendo(discover.req.mac) && discover.req.msgType == DHCP_MSG_DISCOVER
    requires c.self !in discover.arp && discover.switchIp.None?
    requires request.req == Request(discover.req.mac, DHCP_MSG_REQUEST, Some(c.self), 0)
    requires request.readAt < discover.claimAt + DHCP_OFFER_TIME
    ensures var run := [discover, request];
            && ReplyAt(c, run, 0).Some? && ReplyAt(c, run, 0).value.kind == Offer
            && ReplyAt(c, run, 0).value.ip == c.self
            && ReplyAt(c, run, 1).Some? && ReplyAt(c, run, 1).value.kind == Ack && ReplyAt(c, run, 1).value.ip == c.self
  {
    var run := [discover, request];
    FirstOffer(c, discover);
    hide Consume;
    OfferIsHonoured(c, run, 0, 1);
  }

  lemma FirstOffer(c: Config, e: Event)
    requires c.Valid() && c.IsNintendo(e.req.mac) && e.req.msgType == DHCP_MSG_DISCOVER
    requires c.self !in e.arp && e.switchIp.None?
    ensures var r := Consume(c, Init(), e).reply; r.Some? && r.value.kind == Offer && r.value.ip == c.self
  {
    var swept := Sweep(NoLeases(), e.sweepAt);
    assert forall i :: 0 <= i < |swept| ==> swept[i] == FREE;
    hide PickWindow, Config.IsNintendo;
    assert FindMac(swept, e.req.mac) == |swept|;
    assert FindFree(swept) == 0 by {
      assert !swept[0].used;
    }
    assert Pick(c, swept, e) == Some(c.self);
  }
}
