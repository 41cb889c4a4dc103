/**
 Which address the allocator of src/dhcp-server.c offers, stated without its
 loops: the client's own, the relay's when nothing speaks against it, else the
 highest free one of the window below the broadcast address.
 */
module DhcpPick {
  import opened Bytes
  import opened Dhcp

  lemma Quotient(x: nat, q: nat, size: nat)
    requires size > 0
    ensures x / size == q <==> size * q <= x < size * q + size
  {
    var d := x / size;
    assert size * d <= x < size * d + size;
    if d < q {
      assert size * (d + 1) <= size * q;
    } else if d > q {
      assert size * (q + 1) <= size * d;
    }
  }

  /** The subnet is the block of `size` addresses around the relay's own; its first and last are the two reserved. */
  lemma SubnetIsBlock(c: Config, x: u32)
    requires c.Valid()
    ensures c.InSubnet(x) <==> x / c.size == c.self / c.size
    ensures x == c.Broadcast() <==> x / c.size == c.self / c.size && (x + 1) / c.size != c.self / c.size
    ensures x == c.Network() <==> x / c.size == c.self / c.size && (x == 0 || (x - 1) / c.size != c.self / c.size)
  {
    var q := c.self / c.size;
    assert c.Network() == c.size * q;
    Quotient(x, q, c.size);
    Quotient(x + 1, q, c.size);
    if x > 0 {
      Quotient(x - 1, q, c.size);
    }
  }

  /** Nothing speaks against the relay's own address: no ARP entry, no other Switch, no other client's live lease. */
  predicate RelayFree(c: Config, leases: seq<Lease>, e: Event) {
    && c.self !in e.arp && (e.switchIp.None? || e.switchIp == Some(c.self))
    && forall i :: 0 <= i < |leases| && leases[i].Live(e.readAt) && leases[i].ip == c.self ==>
         leases[i].mac == e.req.mac
  }

  /** One of the 24 host addresses below the broadcast address, and in nobody's use. */
  predicate WindowFree(c: Config, leases: seq<Lease>, e: Event, x: u32)
    requires c.Valid()
  {
    && c.Network() < x < c.Broadcast() <= x + 24
    && x != c.gateway && x != c.self && x !in e.arp && e.switchIp != Some(x)
    && forall i :: 0 <= i < |leases| && leases[i].Live(e.readAt) ==> leases[i].ip != x
  }

  predicate OwnAddress(leases: seq<Lease>, mac: Mac, now: int, x: u32) {
    exists i :: 0 <= i < |leases| && leases[i].Live(now) && leases[i].mac == mac && leases[i].ip == x
  }

  /** The address to offer, if any. */
  ghost predicate Offered(c: Config, leases: seq<Lease>, e: Event, r: Option<u32>)
    requires c.Valid()
  {
    if HasLive(leases, e.req.mac, e.readAt) then r.Some? && OwnAddress(leases, e.req.mac, e.readAt, r.value)
    else if RelayFree(c, leases, e) then r == Some(c.self)
    else match r
         case Some(x) => WindowFree(c, leases, e, x) && forall y: u32 :: x < y ==> !WindowFree(c, leases, e, y)
         case None => forall y: u32 :: !WindowFree(c, leases, e, y)
  }

  lemma AvailableIff(c: Config, leases: seq<Lease>, e: Event, k: nat)
    requires c.Valid() && 1 <= k <= WINDOW && c.Network() < c.Broadcast() - k
    ensures Candidate(c, k) == c.Broadcast() - k
    ensures Available(c, leases, Candidate(c, k), e) <==> WindowFree(c, leases, e, Candidate(c, k))
  {
  }

  /** The loop from candidate k down finds the highest free address from there on. */
  lemma {:induction false} WindowFinds(c: Config, leases: seq<Lease>, e: Event, k: nat)
    requires c.Valid() && c.Broadcast() > 0 && 1 <= k && (k == 1 || c.Network() < c.Broadcast() - (k - 1))
    ensures match PickWindow(c, leases, e, k)
            case Some(x) => && WindowFree(c, leases, e, x) && x <= c.Broadcast() - k
                            && forall y: u32 :: x < y <= c.Broadcast() - k ==> !WindowFree(c, leases, e, y)
            case None => forall y: u32 :: y <= c.Broadcast() - k ==> !WindowFree(c, leases, e, y)
    decreases WINDOW + 1 - k
  {
    hide Available, Config.Network;
    if k <= WINDOW && Candidate(c, k) > c.Network() {
      Below(c, k);
      AvailableIff(c, leases, e, k);
      if !WindowFree(c, leases, e, Candidate(c, k)) {
        WindowFinds(c, leases, e, k + 1);
      }
    }
  }

  /** A candidate above the network address has not wrapped around. */
  lemma Below(c: Config, k: nat)
    requires c.Valid() && c.Broadcast() > 0 && 1 <= k <= WINDOW && (k == 1 || c.Network() < c.Broadcast() - (k - 1))
    requires Candidate(c, k) > c.Network()
    ensures c.Network() < c.Broadcast() - k
  {
    assert c.Broadcast() >= k;
    assert Candidate(c, k) == c.Broadcast() - k;
  }

  /** The allocator picks exactly that address. */
  lemma {:induction false} PickIsOffered(c: Config, leases: seq<Lease>, e: Event)
    requires c.Valid() && c.Broadcast() > 0 && OnePerMac(leases)
    ensures Offered(c, leases, e, Pick(c, leases, e))
  {
    WindowFinds(c, leases, e, 1);
    AboveIsOutside(c, leases, e);
    hide PickWindow, WindowFree;
    var own := FindMac(leases, e.req.mac);
    if HasLive(leases, e.req.mac, e.readAt) {
      var i :| 0 <= i < |leases| && leases[i].Live(e.readAt) && leases[i].mac == e.req.mac;
      assert own == i;
    }
  }

  lemma AboveIsOutside(c: Config, leases: seq<Lease>, e: Event)
    requires c.Valid()
    ensures forall y: u32 :: y > c.Broadcast() - 1 ==> !WindowFree(c, leases, e, y)
  {
  }

  /** What holds of the leases that are live is not touched by the sweep before. */
  lemma SweptIsOffered(c: Config, leases: seq<Lease>, e: Event, r: Option<u32>)
    requires c.Valid() && e.Ordered() && Offered(c, Sweep(leases, e.sweepAt), e, r)
    ensures Offered(c, leases, e, r)
  {
    var swept := Sweep(leases, e.sweepAt);
    assert |swept| == |leases|;
    forall i | 0 <= i < |leases|
      ensures swept[i].Live(e.readAt) <==> leases[i].Live(e.readAt)
      ensures leases[i].Live(e.readAt) ==> swept[i] == leases[i]
    {
    }
    hide Sweep;
    assert HasLive(swept, e.req.mac, e.readAt) <==> HasLive(leases, e.req.mac, e.readAt);
    assert RelayFree(c, swept, e) <==> RelayFree(c, leases, e);
    forall y: u32
      ensures WindowFree(c, swept, e, y) <==> WindowFree(c, leases, e, y)
    {
    }
  }

  /** What a console is offered, in terms of the leases before the request; nothing, if there is no room for a lease. */
  lemma {:induction false} OfferIsRight(c: Config, s: State, e: Event)
    requires c.Valid() && c.Broadcast() > 0 && OnePerMac(s.leases) && e.Ordered()
    requires c.IsNintendo(e.req.mac) && e.req.msgType == DHCP_MSG_DISCOVER
    ensures match Consume(c, s, e).reply
            case Some(r) => r.kind == Offer && r.mac == e.req.mac && Offered(c, s.leases, e, Some(r.ip))
            case None => Offered(c, s.leases, e, None) ||
                         forall i :: 0 <= i < |s.leases| ==>
                           s.leases[i].used && s.leases[i].expires > e.sweepAt && s.leases[i].mac != e.req.mac
  {
    var swept := Sweep(s.leases, e.sweepAt);
    assert OnePerMac(swept);
    PickIsOffered(c, swept, e);
    SweptIsOffered(c, s.leases, e, Pick(c, swept, e));
    hide Pick, Offered;
    if Consume(c, s, e).reply.None? && Pick(c, swept, e).Some? {
      assert ClaimSlot(swept, e.req.mac) == |swept|;
      assert forall i :: 0 <= i < |swept| ==> swept[i].used && swept[i] == s.leases[i];
    }
  }
}
