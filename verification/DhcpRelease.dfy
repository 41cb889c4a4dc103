/**
 What a RELEASE does in src/dhcp-server.c: the client's lease is gone and nobody
 else's is touched, and an address the client alone held is offered again.
 */
module DhcpRelease {
  import opened Bytes
  import opened Dhcp

  predicate IsRelease(c: Config, e: Event) {
    c.IsNintendo(e.req.mac) && e.req.msgType == DHCP_MSG_RELEASE
  }

  predicate IsDiscover(e: Event) {
    e.req.msgType == DHCP_MSG_DISCOVER
  }

  /** No lease is in use for this client. */
  predicate Absent(leases: seq<Lease>, mac: Mac) {
    forall i :: 0 <= i < |leases| && leases[i].used ==> leases[i].mac != mac
  }

  /** The leases of the others that had not expired are as they were. */
  predicate OthersKept(before: seq<Lease>, after: seq<Lease>, mac: Mac, now: int) {
    && |after| == |before|
    && forall i :: 0 <= i < |before| && before[i].Live(now) && before[i].mac != mac ==> after[i] == before[i]
  }

  lemma ReleaseFrees(c: Config, s: State, e: Event)
    requires c.Valid() && OnePerMac(s.leases) && IsRelease(c, e)
    ensures var r := Consume(c, s, e);
            && Absent(r.state.leases, e.req.mac) && r.reply == None
            && OthersKept(s.leases, r.state.leases, e.req.mac, e.sweepAt)
  {
    var swept := Sweep(s.leases, e.sweepAt);
    var k := FindMac(swept, e.req.mac);
    assert forall i :: 0 <= i < |swept| && swept[i].used ==> swept[i] == s.leases[i];
  }

  /** Only a DISCOVER of its own gives a client a lease. */
  lemma AbsentKept(c: Config, s: State, e: Event, mac: Mac)
    requires c.Valid() && Absent(s.leases, mac) && !(IsDiscover(e) && e.req.mac == mac)
    ensures Absent(Consume(c, s, e).state.leases, mac)
  {
    var swept := Sweep(s.leases, e.sweepAt);
    assert forall i :: 0 <= i < |swept| && swept[i].used ==> swept[i] == s.leases[i];
    hide Pick, Sweep;
  }

  /** Over every run, from a console's RELEASE to its next DISCOVER, it has no lease. */
  lemma {:induction false} ReleasedUntilDiscover(c: Config, run: seq<Event>, i: nat, j: nat)
    requires c.Valid() && Ordered(run) && i < j <= |run| && IsRelease(c, run[i])
    requires forall k :: i < k < j && IsDiscover(run[k]) ==> run[k].req.mac != run[i].req.mac
    ensures Absent(After(c, run, j).leases, run[i].req.mac)
  {
    hide Consume, Absent;
    if j == i + 1 {
      ReachableInv(c, run, i);
      ReleaseFrees(c, After(c, run, i), run[i]);
    } else {
      ReleasedUntilDiscover(c, run, i, j - 1);
      AbsentKept(c, After(c, run, j - 1), run[j - 1], run[i].req.mac);
    }
  }

  /** Only consoles are answered, and for anybody else nothing changes but that expired leases go. */
  lemma OnlyConsolesAreAnswered(c: Config, s: State, e: Event)
    requires c.Valid() && !c.IsNintendo(e.req.mac)
    ensures var r := Consume(c, s, e);
            r.reply == None && r.state.leases == Sweep(s.leases, e.sweepAt)
  {
  }

  // ---------------------------------------------------- offered once more

  /** Nobody has a lease of this address that is live at time t, and one lease is free. */
  predicate Vacant(leases: seq<Lease>, ip: u32, t: int) {
    && (forall i :: 0 <= i < |leases| && leases[i].Live(t) ==> leases[i].ip != ip)
    && (exists i :: 0 <= i < |leases| && !leases[i].used)
  }

  /** This client alone holds the address. */
  predicate HoldsAlone(leases: seq<Lease>, mac: Mac, ip: u32, t: int) {
    && (exists i :: 0 <= i < |leases| && leases[i].Live(t) && leases[i].mac == mac && leases[i].ip == ip)
    && (forall i :: 0 <= i < |leases| && leases[i].Live(t) && leases[i].ip == ip ==> leases[i].mac == mac)
  }

  lemma ReleaseVacates(c: Config, s: State, e: Event)
    requires c.Valid() && OnePerMac(s.leases) && IsRelease(c, e) && e.Ordered()
    requires HoldsAlone(s.leases, e.req.mac, c.self, e.readAt)
    ensures Vacant(Consume(c, s, e).state.leases, c.self, e.readAt)
  {
    var swept := Sweep(s.leases, e.sweepAt);
    assert forall i :: 0 <= i < |swept| ==> swept[i] == FREE || swept[i] == s.leases[i];
    var i :| 0 <= i < |s.leases| && s.leases[i].Live(e.readAt) && s.leases[i].mac == e.req.mac
      && s.leases[i].ip == c.self;
    assert swept[i] == s.leases[i];
    var k := FindMac(swept, e.req.mac);
    assert k == i;
    var after := swept[k := FREE];
    assert Consume(c, s, e).state.leases == after && !after[k].used;
  }

  lemma VacantKept(c: Config, s: State, e: Event, ip: u32, t: int)
    requires c.Valid() && Vacant(s.leases, ip, t) && !IsDiscover(e) && t <= e.readAt
    ensures Vacant(Consume(c, s, e).state.leases, ip, t)
  {
    var swept := Sweep(s.leases, e.sweepAt);
    assert forall i :: 0 <= i < |swept| ==> swept[i] == FREE || swept[i] == s.leases[i];
    var f :| 0 <= f < |s.leases| && !s.leases[f].used;
    assert !swept[f].used;
    hide Sweep;
    var after := Consume(c, s, e).state.leases;
    assert |after| == |swept| && !after[f].used;
  }

  lemma {:induction false} VacantUntil(c: Config, run: seq<Event>, i: nat, j: nat)
    requires c.Valid() && Ordered(run) && i < j <= |run| && IsRelease(c, run[i])
    requires HoldsAlone(After(c, run, i).leases, run[i].req.mac, c.self, run[i].readAt)
    requires forall k :: i < k < j ==> !IsDiscover(run[k])
    ensures Vacant(After(c, run, j).leases, c.self, run[i].readAt)
  {
    hide Consume, Vacant, HoldsAlone;
    if j == i + 1 {
      ReachableInv(c, run, i);
      ReleaseVacates(c, After(c, run, i), run[i]);
    } else {
      VacantUntil(c, run, i, j - 1);
      assert run[i].Ordered() && run[j - 1].Ordered() && run[i].claimAt <= run[j - 1].sweepAt;
      VacantKept(c, After(c, run, j - 1), run[j - 1], c.self, run[i].readAt);
    }
  }

  /** The relay's own address goes to a console without a lease when nobody has it. */
  lemma VacantIsOffered(c: Config, s: State, e: Event, t: int)
    requires c.Valid() && Vacant(s.leases, c.self, t) && t <= e.readAt && e.Ordered()
    requires c.IsNintendo(e.req.mac) && IsDiscover(e)
    requires forall i :: 0 <= i < |s.leases| && s.leases[i].Live(e.readAt) ==> s.leases[i].mac != e.req.mac
    requires c.self !in e.arp && (e.switchIp.None? || e.switchIp == Some(c.self))
    ensures Consume(c, s, e).reply == Some(Reply(Offer, e.req.mac, c.self, e.readAt, e.claimAt, e.sendOk))
  {
    var swept := Sweep(s.leases, e.sweepAt);
    assert forall i :: 0 <= i < |swept| ==> swept[i] == FREE || swept[i] == s.leases[i];
    var f :| 0 <= f < |s.leases| && !s.leases[f].used;
    assert !swept[f].used;
    hide Sweep;
    assert FindFree(swept) < |swept|;
    assert Pick(c, swept, e) == Some(c.self);
  }

  /**
   Over every run: a console that alone held the relay's own address releases it;
   as long as nobody has sent DISCOVER since, the next console without a lease
   that does is offered that address, unless the ARP cache or the detected Switch
   speaks against it.
   */
  lemma {:induction false} ReleasedIsOfferedAgain(c: Config, run: seq<Event>, i: nat, j: nat)
    requires c.Valid() && Ordered(run) && i < j < |run| && IsRelease(c, run[i])
    requires HoldsAlone(After(c, run, i).leases, run[i].req.mac, c.self, run[i].readAt)
    requires forall k :: i < k < j ==> !IsDiscover(run[k])
    requires IsDiscover(run[j]) && c.IsNintendo(run[j].req.mac)
    requires var leases := After(c, run, j).leases;
             forall k :: 0 <= k < |leases| && leases[k].Live(run[j].readAt) ==> leases[k].mac != run[j].req.mac
    requires c.self !in run[j].arp && (run[j].switchIp.None? || run[j].switchIp == Some(c.self))
    ensures ReplyAt(c, run, j) ==
            Some(Reply(Offer, run[j].req.mac, c.self, run[j].readAt, run[j].claimAt, run[j].sendOk))
  {
    hide Consume, Vacant, HoldsAlone;
    VacantUntil(c, run, i, j);
    assert run[i].Ordered() && run[j].Ordered() && run[i].claimAt <= run[j].sweepAt;
    VacantIsOffered(c, After(c, run, j), run[j], run[i].readAt);
  }

  // ------------------------------------------------------------- the counters

  function WentOut(r: Option<Reply>, kind: Kind): nat {
    if r.Some? && r.value.kind == kind && r.value.sent then 1 else 0
  }

  /** The replies of a kind that were injected in the first n events. */
  function Injected(c: Config, run: seq<Event>, n: nat, kind: Kind): nat
    requires c.Valid() && n <= |run|
  {
    if n == 0 then 0 else Injected(c, run, n - 1, kind) + WentOut(ReplyAt(c, run, n - 1), kind)
  }

  lemma CountsOne(c: Config, s: State, e: Event)
    requires c.Valid()
    ensures var r := Consume(c, s, e);
            && r.state.offersSent == s.offersSent + WentOut(r.reply, Offer)
            && r.state.acksSent == s.acksSent + WentOut(r.reply, Ack)
            && r.state.naksSent == s.naksSent + WentOut(r.reply, Nak)
  {
    hide Pick, Sweep, FindMac, FindFree;
  }

  /** Over every run the counters are the numbers of replies that went out. */
  lemma {:induction false} CountersCountReplies(c: Config, run: seq<Event>, n: nat)
    requires c.Valid() && n <= |run|
    ensures var s := After(c, run, n);
            && s.offersSent == Injected(c, run, n, Offer) && s.acksSent == Injected(c, run, n, Ack)
            && s.naksSent == Injected(c, run, n, Nak)
  {
    hide Consume;
    if n > 0 {
      CountersCountReplies(c, run, n - 1);
      CountsOne(c, After(c, run, n - 1), run[n - 1]);
    }
  }
}
