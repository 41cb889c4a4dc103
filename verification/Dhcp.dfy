/**
 The lease allocator of src/dhcp-server.c as a state machine. One event is one
 parsed client packet, with everything the handler reads from outside: three
 non-decreasing clock readings, the answers of the ARP cache, the known Switch
 address and whether the reply could be injected.
 */
module Dhcp {
  import opened Bytes

  const DHCP_LEASE_COUNT := 8
  const DHCP_LEASE_TIME := 3600
  const DHCP_OFFER_TIME := 120
  const WINDOW := 24

  const DHCP_MSG_DISCOVER: byte := 1
  const DHCP_MSG_REQUEST: byte := 3
  const DHCP_MSG_RELEASE: byte := 7

  /** struct dhcp_lease. */
  datatype Lease = Lease(used: bool, mac: Mac, ip: u32, expires: int, offered: bool) {
    predicate Live(now: int) {
      used && expires > now
    }
  }

  const FREE := Lease(false, [0, 0, 0, 0, 0, 0], 0, 0, false)

  /**
   The addresses of the relay. The overlay mask is contiguous: `size` is the
   number of addresses of the subnet, a power of two.
   */
  datatype Config = Config(self: u32, size: nat, gateway: u32, ouis: set<seq<byte>>) {
    predicate Valid() {
      0 < size <= 0x1_0000_0000 && Network() + size <= 0x1_0000_0000
    }

    /** zerotier_ip & zerotier_netmask. */
    function Network(): nat
      requires size > 0
    {
      self - self % size
    }

    /** zerotier_ip | ~zerotier_netmask. */
    function Broadcast(): u32
      requires Valid()
    {
      Network() + size - 1
    }

    /** dhcp_in_our_subnet. */
    predicate InSubnet(ip: u32)
      requires Valid()
    {
      Network() <= ip <= Broadcast()
    }

    predicate IsNintendo(mac: Mac) {
      mac[..3] in ouis
    }
  }

  datatype Request = Request(mac: Mac, msgType: byte, requestedIp: Option<u32>, ciaddr: u32) {
    predicate HasWant() {
      requestedIp.Some? || ciaddr != 0
    }

    function Want(): u32 {
      if requestedIp.Some? then requestedIp.value else ciaddr
    }
  }

  datatype Event = Event(
    req: Request,
    sweepAt: int,            // clock when expired leases are swept
    readAt: int,             // clock of dhcp_pick_ip, or of the REQUEST branch
    claimAt: int,            // clock of dhcp_claim
    arp: set<u32>,           // addresses found live in the ARP cache
    switchIp: Option<u32>,   // the detected Switch, if any
    sendOk: bool             // the reply could be injected
  ) {
    predicate Ordered() {
      sweepAt <= readAt <= claimAt
    }
  }

  datatype Kind = Offer | Ack | Nak

  /** A reply that was built; `decidedAt` is readAt and `claimedAt` claimAt of its event. */
  datatype Reply = Reply(kind: Kind, mac: Mac, ip: u32, decidedAt: int, claimedAt: int, sent: bool)

  datatype State = State(
    leases: seq<Lease>,
    offersSent: nat,
    acksSent: nat,
    naksSent: nat,
    ignoredNonNintendo: nat,
    lostRaces: nat
  )

  function NoLeases(): (s: seq<Lease>)
    ensures |s| == DHCP_LEASE_COUNT && forall i :: 0 <= i < |s| ==> s[i] == FREE
  {
    [FREE, FREE, FREE, FREE, FREE, FREE, FREE, FREE]
  }

  /** dhcp_server_init. */
  function Init(): State {
    State(NoLeases(), 0, 0, 0, 0, 0)
  }

  // --------------------------------------------------------------- operations

  /** dhcp_sweep_expired. */
  function Sweep(leases: seq<Lease>, now: int): (r: seq<Lease>)
    ensures |r| == |leases|
    ensures forall i :: 0 <= i < |r| ==>
              r[i] == if leases[i].used && leases[i].expires <= now then FREE else leases[i]
  {
    if leases == [] then []
    else [if leases[0].used && leases[0].expires <= now then FREE else leases[0]] + Sweep(leases[1..], now)
  }

  /** dhcp_find_mac: the index, or the table size. */
  function FindMac(leases: seq<Lease>, mac: Mac): (i: nat)
    ensures i <= |leases|
    ensures i < |leases| ==> leases[i].used && leases[i].mac == mac
    ensures forall j :: 0 <= j < i ==> !(leases[j].used && leases[j].mac == mac)
  {
    if leases == [] || (leases[0].used && leases[0].mac == mac) then 0 else 1 + FindMac(leases[1..], mac)
  }

  function FindFree(leases: seq<Lease>): (i: nat)
    ensures i <= |leases|
    ensures i < |leases| ==> !leases[i].used
    ensures forall j :: 0 <= j < i ==> leases[j].used
  {
    if leases == [] || !leases[0].used then 0 else 1 + FindFree(leases[1..])
  }

  /** Somebody holds a live lease of this address. */
  predicate Taken(leases: seq<Lease>, ip: u32, now: int) {
    exists i :: 0 <= i < |leases| && leases[i].Live(now) && leases[i].ip == ip
  }

  /** Somebody else holds a live lease of this address. */
  predicate TakenByOther(leases: seq<Lease>, ip: u32, mac: Mac, now: int) {
    exists i :: 0 <= i < |leases| && leases[i].Live(now) && leases[i].ip == ip && leases[i].mac != mac
  }

  /** The candidate k places below the broadcast address, in 32-bit arithmetic. */
  function Candidate(c: Config, k: nat): u32
    requires c.Valid()
  {
    (c.Broadcast() - k) % 0x1_0000_0000
  }

  predicate Available(c: Config, leases: seq<Lease>, ip: u32, e: Event) {
    && ip != c.gateway && ip != c.self
    && e.switchIp != Some(ip)
    && ip !in e.arp
    && !Taken(leases, ip, e.readAt)
  }

  /** The loop over the window, from the k-th candidate down. */
  function PickWindow(c: Config, leases: seq<Lease>, e: Event, k: nat): Option<u32>
    requires c.Valid() && 1 <= k
    decreases WINDOW + 1 - k
  {
    if k > WINDOW || Candidate(c, k) <= c.Network() then None
    else if Available(c, leases, Candidate(c, k), e) then Some(Candidate(c, k))
    else PickWindow(c, leases, e, k + 1)
  }

  /** dhcp_pick_ip: the client's own live address, else the relay's, else one of the window. */
  function Pick(c: Config, leases: seq<Lease>, e: Event): Option<u32>
    requires c.Valid()
  {
    var own := FindMac(leases, e.req.mac);
    if own < |leases| && leases[own].expires > e.readAt then Some(leases[own].ip)
    else if !TakenByOther(leases, c.self, e.req.mac, e.readAt) && c.self !in e.arp &&
            (e.switchIp.None? || e.switchIp == Some(c.self)) then Some(c.self)
    else PickWindow(c, leases, e, 1)
  }

  /** The slot dhcp_claim writes: the client's own, else the first free one, else the table size. */
  function ClaimSlot(leases: seq<Lease>, mac: Mac): (i: nat)
    ensures i <= |leases|
  {
    if FindMac(leases, mac) < |leases| then FindMac(leases, mac) else FindFree(leases)
  }

  /** dhcp_claim. */
  function Claim(leases: seq<Lease>, mac: Mac, ip: u32, offered: bool, now: int): Option<seq<Lease>> {
    var i := ClaimSlot(leases, mac);
    if i < |leases| then
      Some(leases[i := Lease(true, mac, ip, now + (if offered then DHCP_OFFER_TIME else DHCP_LEASE_TIME), offered)])
    else None
  }

  datatype Outcome = Outcome(state: State, reply: Option<Reply>)

  /** The DISCOVER branch. */
  function Discover(c: Config, s: State, e: Event): Outcome
    requires c.Valid()
  {
    match Pick(c, s.leases, e)
    case None => Outcome(s, None)
    case Some(ip) =>
      match Claim(s.leases, e.req.mac, ip, true, e.claimAt)
      case None => Outcome(s, None)
      case Some(leases) =>
        Outcome(s.(leases := leases, offersSent := s.offersSent + if e.sendOk then 1 else 0),
                Some(Reply(Offer, e.req.mac, ip, e.readAt, e.claimAt, e.sendOk)))
  }

  /** The REQUEST branch. */
  function Renew(c: Config, s: State, e: Event): Outcome
    requires c.Valid()
  {
    var i := FindMac(s.leases, e.req.mac);
    if i < |s.leases| && s.leases[i].expires > e.readAt && e.req.HasWant() && e.req.Want() == s.leases[i].ip then
      match Claim(s.leases, e.req.mac, s.leases[i].ip, false, e.claimAt)
      case Some(leases) =>
        Outcome(s.(leases := leases, acksSent := s.acksSent + if e.sendOk then 1 else 0),
                Some(Reply(Ack, e.req.mac, s.leases[i].ip, e.readAt, e.claimAt, e.sendOk)))
    else if e.req.HasWant() && c.InSubnet(e.req.Want()) then
      Outcome(s.(naksSent := s.naksSent + if e.sendOk then 1 else 0),
              Some(Reply(Nak, e.req.mac, 0, e.readAt, e.claimAt, e.sendOk)))
    else if e.req.HasWant() then Outcome(s.(lostRaces := s.lostRaces + 1), None)
    else Outcome(s, None)
  }

  function Release(s: State, mac: Mac): State {
    var i := FindMac(s.leases, mac);
    if i < |s.leases| then s.(leases := s.leases[i := FREE]) else s
  }

  /** dhcp_server_consume, once the packet is parsed. */
  function Consume(c: Config, s: State, e: Event): Outcome
    requires c.Valid()
  {
    var s := s.(leases := Sweep(s.leases, e.sweepAt));
    if !c.IsNintendo(e.req.mac) then Outcome(s.(ignoredNonNintendo := s.ignoredNonNintendo + 1), None)
    else if e.req.msgType == DHCP_MSG_DISCOVER then Discover(c, s, e)
    else if e.req.msgType == DHCP_MSG_REQUEST then Renew(c, s, e)
    else if e.req.msgType == DHCP_MSG_RELEASE then Outcome(Release(s, e.req.mac), None)
    else Outcome(s, None)
  }

  // -------------------------------------------------------------- exclusivity

  /** One lease per client. */
  predicate OnePerMac(leases: seq<Lease>) {
    forall i, j :: 0 <= i < j < |leases| && leases[i].used && leases[j].used ==> leases[i].mac != leases[j].mac
  }

  /** One live lease per address, at any instant from `now` on. */
  predicate OnePerIp(leases: seq<Lease>, now: int) {
    forall i, j :: 0 <= i < j < |leases| && leases[i].Live(now) && leases[j].Live(now) ==> leases[i].ip != leases[j].ip
  }

  predicate Inv(leases: seq<Lease>, now: int) {
    |leases| == DHCP_LEASE_COUNT && OnePerMac(leases) && OnePerIp(leases, now)
  }

  lemma InvLater(leases: seq<Lease>, now: int, later: int)
    requires Inv(leases, now) && now <= later
    ensures Inv(leases, later)
  {
  }

  lemma SweepKeepsInv(leases: seq<Lease>, now: int, at: int)
    requires Inv(leases, now)
    ensures Inv(Sweep(leases, at), now)
  {
  }

  /** A picked address is not live with anybody else. */
  lemma {:induction false} PickIsExclusive(c: Config, leases: seq<Lease>, e: Event)
    requires c.Valid() && Inv(leases, e.readAt)
    ensures var ip := Pick(c, leases, e);
            ip.Some? ==> !TakenByOther(leases, ip.value, e.req.mac, e.readAt)
  {
    if Pick(c, leases, e).Some? {
      var own := FindMac(leases, e.req.mac);
      if own < |leases| && leases[own].expires > e.readAt {
      } else if PickWindow(c, leases, e, 1).Some? {
        WindowAvailable(c, leases, e, 1);
      }
    }
  }

  /** The window yields the first available candidate. */
  lemma {:induction false} WindowAvailable(c: Config, leases: seq<Lease>, e: Event, k: nat)
    requires c.Valid() && 1 <= k && PickWindow(c, leases, e, k).Some?
    ensures var ip := PickWindow(c, leases, e, k).value;
            && Available(c, leases, ip, e)
            && exists j :: k <= j <= WINDOW && ip == Candidate(c, j) && ip > c.Network()
    decreases WINDOW + 1 - k
  {
    hide Available;
    if !Available(c, leases, Candidate(c, k), e) {
      WindowAvailable(c, leases, e, k + 1);
    }
  }

  /** Claiming an address that nobody else holds keeps both kinds of exclusivity. */
  lemma ClaimKeepsInv(leases: seq<Lease>, mac: Mac, ip: u32, offered: bool, at: int, now: int)
    requires Inv(leases, now) && !TakenByOther(leases, ip, mac, now)
    ensures var r := Claim(leases, mac, ip, offered, at); r.Some? ==> Inv(r.value, now)
  {
    var i := ClaimSlot(leases, mac);
    if i < |leases| {
      forall j | 0 <= j < |leases| && j != i && leases[j].used
        ensures leases[j].mac != mac
        ensures leases[j].Live(now) ==> leases[j].ip != ip
      {
      }
    }
  }

  lemma {:induction false} ConsumeKeepsInv(c: Config, s: State, e: Event, now: int)
    requires c.Valid() && Inv(s.leases, now) && now <= e.readAt && e.Ordered()
    ensures Inv(Consume(c, s, e).state.leases, e.readAt)
  {
    SweepKeepsInv(s.leases, now, e.sweepAt);
    var swept := s.(leases := Sweep(s.leases, e.sweepAt));
    InvLater(swept.leases, now, e.readAt);
    PickIsExclusive(c, swept.leases, e);
    hide Pick, OnePerIp, Sweep;
    var ip := Pick(c, swept.leases, e);
    if ip.Some? {
      ClaimKeepsInv(swept.leases, e.req.mac, ip.value, true, e.claimAt, e.readAt);
    }
    RenewKeepsInv(c, swept, e);
    ReleaseKeepsInv(swept, e.req.mac, e.readAt);
  }

  lemma RenewKeepsInv(c: Config, s: State, e: Event)
    requires c.Valid() && Inv(s.leases, e.readAt)
    ensures Inv(Renew(c, s, e).state.leases, e.readAt)
  {
    var i := FindMac(s.leases, e.req.mac);
    if i < |s.leases| && s.leases[i].expires > e.readAt {
      ClaimKeepsInv(s.leases, e.req.mac, s.leases[i].ip, false, e.claimAt, e.readAt);
    }
  }

  lemma ReleaseKeepsInv(s: State, mac: Mac, now: int)
    requires Inv(s.leases, now)
    ensures Inv(Release(s, mac).leases, now)
  {
  }

  // --------------------------------------------------------------- whole runs

  /** The clock never goes back, within an event or between events. */
  predicate Ordered(run: seq<Event>) {
    && (forall i :: 0 <= i < |run| ==> run[i].Ordered())
    && (forall i, j :: 0 <= i < j < |run| ==> run[i].claimAt <= run[j].sweepAt)
  }

  /** The server after the first n events. */
  function After(c: Config, run: seq<Event>, n: nat): State
    requires c.Valid() && n <= |run|
  {
    if n == 0 then Init() else Consume(c, After(c, run, n - 1), run[n - 1]).state
  }

  /** The reply to event i, if any. */
  function ReplyAt(c: Config, run: seq<Event>, i: nat): Option<Reply>
    requires c.Valid() && i < |run|
  {
    Consume(c, After(c, run, i), run[i]).reply
  }

  /** When event n-1 last read the clock before deciding; the past, before any event. */
  function ClockAfter(run: seq<Event>, n: nat): int
    requires n <= |run|
  {
    if n > 0 then run[n - 1].readAt else if run != [] then run[0].readAt else 0
  }

  /** In every reachable state, one lease per client and one live lease per address. */
  lemma {:induction false} ReachableInv(c: Config, run: seq<Event>, n: nat)
    requires c.Valid() && Ordered(run) && n <= |run|
    ensures Inv(After(c, run, n).leases, ClockAfter(run, n))
  {
    if n > 0 {
      ReachableInv(c, run, n - 1);
      hide Inv, Consume;
      ConsumeKeepsInv(c, After(c, run, n - 1), run[n - 1], ClockAfter(run, n - 1));
    }
  }

  // ------------------------------------------------------- protection of ACKs

  /** Client m holds address ip at least until `until`. */
  predicate Holds(leases: seq<Lease>, m: Mac, ip: u32, until: int) {
    exists i :: 0 <= i < |leases| && leases[i].used && leases[i].mac == m && leases[i].ip == ip &&
      leases[i].expires >= until
  }

  /** Only a DISCOVER or RELEASE of its own can take an address from a client before it expires. */
  predicate GivesUp(e: Event, m: Mac) {
    e.req.mac == m && (e.req.msgType == DHCP_MSG_DISCOVER || e.req.msgType == DHCP_MSG_RELEASE)
  }

  lemma ClaimKeepsOthers(leases: seq<Lease>, mac: Mac, ip: u32, offered: bool, at: int, m: Mac, held: u32, until: int)
    requires Holds(leases, m, held, until) && mac != m
    ensures var r := Claim(leases, mac, ip, offered, at); r.Some? ==> Holds(r.value, m, held, until)
  {
    var k :| 0 <= k < |leases| && leases[k].used && leases[k].mac == m && leases[k].ip == held &&
      leases[k].expires >= until;
    var r := Claim(leases, mac, ip, offered, at);
    if r.Some? {
      assert ClaimSlot(leases, mac) != k;
      assert r.value[k] == leases[k];
    }
  }

  lemma SweepKeepsHolds(leases: seq<Lease>, at: int, m: Mac, held: u32, until: int)
    requires Holds(leases, m, held, until) && at < until
    ensures Holds(Sweep(leases, at), m, held, until)
  {
    var k :| 0 <= k < |leases| && leases[k].used && leases[k].mac == m && leases[k].ip == held &&
      leases[k].expires >= until;
    assert Sweep(leases, at)[k] == leases[k];
  }

  /** Until the lease expires, nobody else is offered or granted its address. */
  lemma {:induction false} ConsumeKeepsHolds(c: Config, s: State, e: Event, now: int, m: Mac, held: u32, until: int)
    requires c.Valid() && Inv(s.leases, now) && now <= e.readAt && e.Ordered()
    requires Holds(s.leases, m, held, until) && e.readAt < until <= e.claimAt + DHCP_LEASE_TIME && !GivesUp(e, m)
    ensures var r := Consume(c, s, e);
            && Holds(r.state.leases, m, held, until)
            && (r.reply.Some? && r.reply.value.kind != Nak && r.reply.value.ip == held ==> r.reply.value.mac == m)
  {
    hide Sweep, Discover, Renew, Release, Holds, Inv;
    SweepKeepsInv(s.leases, now, e.sweepAt);
    SweepKeepsHolds(s.leases, e.sweepAt, m, held, until);
    var swept := s.(leases := Sweep(s.leases, e.sweepAt));
    InvLater(swept.leases, now, e.readAt);
    DiscoverKeepsHolds(c, swept, e, m, held, until);
    RenewKeepsHolds(c, swept, e, m, held, until);
    ReleaseKeepsHolds(swept, e.req.mac, m, held, until);
  }

  lemma DiscoverKeepsHolds(c: Config, s: State, e: Event, m: Mac, held: u32, until: int)
    requires c.Valid() && Inv(s.leases, e.readAt) && Holds(s.leases, m, held, until) && e.readAt < until
    ensures var r := Discover(c, s, e);
            e.req.mac != m ==>
              && Holds(r.state.leases, m, held, until)
              && (r.reply.Some? ==> r.reply.value.ip != held)
  {
    PickIsExclusive(c, s.leases, e);
    hide Pick, Inv, Claim;
    var ip := Pick(c, s.leases, e);
    if e.req.mac != m && ip.Some? {
      ClaimKeepsOthers(s.leases, e.req.mac, ip.value, true, e.claimAt, m, held, until);
      assert TakenByOther(s.leases, held, e.req.mac, e.readAt);
    }
  }

  lemma RenewKeepsHolds(c: Config, s: State, e: Event, m: Mac, held: u32, until: int)
    requires c.Valid() && Inv(s.leases, e.readAt) && Holds(s.leases, m, held, until)
    requires e.readAt < until <= e.claimAt + DHCP_LEASE_TIME
    ensures var r := Renew(c, s, e);
            && Holds(r.state.leases, m, held, until)
            && (r.reply.Some? && r.reply.value.kind != Nak && r.reply.value.ip == held ==> r.reply.value.mac == m)
  {
    var i := FindMac(s.leases, e.req.mac);
    if i < |s.leases| && s.leases[i].expires > e.readAt {
      var ip := s.leases[i].ip;
      if e.req.mac != m {
        ClaimKeepsOthers(s.leases, e.req.mac, ip, false, e.claimAt, m, held, until);
      } else {
        var k :| 0 <= k < |s.leases| && s.leases[k].used && s.leases[k].mac == m && s.leases[k].ip == held
                 && s.leases[k].expires >= until;
        assert k == i;
        var r := Claim(s.leases, m, ip, false, e.claimAt);
        assert r.value[i].used && r.value[i].mac == m && r.value[i].ip == held;
      }
    }
  }

  lemma ReleaseKeepsHolds(s: State, mac: Mac, m: Mac, held: u32, until: int)
    requires Holds(s.leases, m, held, until)
    ensures mac != m ==> Holds(Release(s, mac).leases, m, held, until)
  {
    var k :| 0 <= k < |s.leases| && s.leases[k].used && s.leases[k].mac == m && s.leases[k].ip == held
             && s.leases[k].expires >= until;
    if mac != m {
      assert Release(s, mac).leases[k] == s.leases[k];
    }
  }

  /** An ACK leaves the client holding the address for the lease time. */
  lemma AckHolds(c: Config, s: State, e: Event)
    requires c.Valid()
    ensures var r := Consume(c, s, e);
            r.reply.Some? && r.reply.value.kind == Ack ==>
              && r.reply.value.mac == e.req.mac && r.reply.value.claimedAt == e.claimAt
              && Holds(r.state.leases, e.req.mac, r.reply.value.ip, e.claimAt + DHCP_LEASE_TIME)
  {
    var leases := Sweep(s.leases, e.sweepAt);
    var i := FindMac(leases, e.req.mac);
    hide Sweep, Discover;
    if i < |leases| {
      var r := Claim(leases, e.req.mac, leases[i].ip, false, e.claimAt);
      assert r.value[i] == Lease(true, e.req.mac, leases[i].ip, e.claimAt + DHCP_LEASE_TIME, false);
    }
    DiscoverOnlyOffers(c, s.(leases := leases), e);
  }

  /** An OFFER reserves the address for two minutes, also when it replaces a longer lease. */
  lemma OfferReserves(c: Config, s: State, e: Event)
    requires c.Valid()
    ensures var r := Consume(c, s, e);
            r.reply.Some? && r.reply.value.kind == Offer ==>
              var i := FindMac(r.state.leases, e.req.mac);
              && i < |r.state.leases|
              && r.state.leases[i] == Lease(true, e.req.mac, r.reply.value.ip, e.claimAt + DHCP_OFFER_TIME, true)
  {
    var leases := Sweep(s.leases, e.sweepAt);
    hide Sweep, Pick;
    var ip := Pick(c, s.(leases := leases).leases, e);
    if ip.Some? {
      ClaimFound(leases, e.req.mac, ip.value, true, e.claimAt);
    }
  }

  /** A claimed lease is the one found for its client. */
  lemma ClaimFound(leases: seq<Lease>, mac: Mac, ip: u32, offered: bool, now: int)
    ensures var r := Claim(leases, mac, ip, offered, now);
            r.Some? ==> FindMac(r.value, mac) == ClaimSlot(leases, mac) < |r.value|
  {
    var r, i := Claim(leases, mac, ip, offered, now), ClaimSlot(leases, mac);
    if r.Some? {
      var f := FindMac(r.value, mac);
      assert r.value[i].used && r.value[i].mac == mac;
    }
  }

  lemma DiscoverOnlyOffers(c: Config, s: State, e: Event)
    requires c.Valid()
    ensures var r := Discover(c, s, e).reply; r.Some? ==> r.value.kind == Offer
  {
  }

  /** Between an ACK and the end of its lease, the client keeps holding the address. */
  lemma {:induction false} HeldSince(c: Config, run: seq<Event>, i: nat, j: nat)
    requires c.Valid() && Ordered(run) && i < j <= |run|
    requires var r := ReplyAt(c, run, i); r.Some? && r.value.kind == Ack
    requires forall k :: i < k < j ==>
      !GivesUp(run[k], run[i].req.mac) && run[k].readAt < run[i].claimAt + DHCP_LEASE_TIME
    ensures Holds(After(c, run, j).leases, run[i].req.mac, ReplyAt(c, run, i).value.ip,
                  run[i].claimAt + DHCP_LEASE_TIME)
  {
    hide Consume, Holds, Inv;
    if j == i + 1 {
      AckHolds(c, After(c, run, i), run[i]);
    } else {
      HeldSince(c, run, i, j - 1);
      ReachableInv(c, run, j - 1);
      ConsumeKeepsHolds(c, After(c, run, j - 1), run[j - 1], ClockAfter(run, j - 1), run[i].req.mac,
                        ReplyAt(c, run, i).value.ip, run[i].claimAt + DHCP_LEASE_TIME);
    }
  }

  /**
   After an ACK of an address to client m at time t, every OFFER or ACK of that
   address decided before t + 3600 goes to m, unless m itself has since sent
   DISCOVER or RELEASE.
   */
  lemma {:induction false} AckedAddressIsExclusive(c: Config, run: seq<Event>, i: nat, j: nat)
    requires c.Valid() && Ordered(run) && i < j < |run|
    requires ReplyAt(c, run, i).Some? && ReplyAt(c, run, j).Some?
    requires ReplyAt(c, run, i).value.kind == Ack && ReplyAt(c, run, j).value.kind != Nak
    requires ReplyAt(c, run, j).value.ip == ReplyAt(c, run, i).value.ip
    requires ReplyAt(c, run, j).value.decidedAt < ReplyAt(c, run, i).value.claimedAt + DHCP_LEASE_TIME
    requires forall k :: i < k <= j ==> !GivesUp(run[k], ReplyAt(c, run, i).value.mac)
    ensures ReplyAt(c, run, j).value.mac == ReplyAt(c, run, i).value.mac
  {
    AckHolds(c, After(c, run, i), run[i]);
    ReplyTimes(c, After(c, run, j), run[j]);
    hide Consume, Holds, Inv;
    HeldSince(c, run, i, j);
    ReachableInv(c, run, j);
    ConsumeKeepsHolds(c, After(c, run, j), run[j], ClockAfter(run, j), run[i].req.mac,
                      ReplyAt(c, run, i).value.ip, run[i].claimAt + DHCP_LEASE_TIME);
  }

  lemma ReplyTimes(c: Config, s: State, e: Event)
    requires c.Valid()
    ensures var r := Consume(c, s, e).reply;
            r.Some? ==> r.value.decidedAt == e.readAt && r.value.claimedAt == e.claimAt && r.value.mac == e.req.mac
  {
    hide Sweep, Pick, Claim, FindMac;
  }

  // ------------------------------------------------------ ACKs follow DISCOVERs

  /** Some earlier DISCOVER of this client claimed this address. */
  predicate Discovered(c: Config, run: seq<Event>, n: nat, mac: Mac, ip: u32)
    requires c.Valid() && n <= |run|
  {
    exists k :: 0 <= k < n && run[k].req.msgType == DHCP_MSG_DISCOVER && OffersTo(ReplyAt(c, run, k), mac, ip)
  }

  predicate OffersTo(r: Option<Reply>, mac: Mac, ip: u32) {
    r.Some? && r.value.kind == Offer && r.value.mac == mac && r.value.ip == ip
  }

  /** Every lease goes back to a DISCOVER. */
  lemma {:induction false} LeasesAreDiscovered(c: Config, run: seq<Event>, n: nat)
    requires c.Valid() && n <= |run|
    ensures forall i :: 0 <= i < |After(c, run, n).leases| && After(c, run, n).leases[i].used ==>
              Discovered(c, run, n, After(c, run, n).leases[i].mac, After(c, run, n).leases[i].ip)
  {
    hide Consume, Config.Valid;
    if n > 0 {
      LeasesAreDiscovered(c, run, n - 1);
      var s, e := After(c, run, n - 1), run[n - 1];
      var s' := After(c, run, n);
      ConsumeOrigin(c, s, e);
      forall i | 0 <= i < |s'.leases| && s'.leases[i].used
        ensures Discovered(c, run, n, s'.leases[i].mac, s'.leases[i].ip)
      {
        if OffersTo(ReplyAt(c, run, n - 1), s'.leases[i].mac, s'.leases[i].ip) {
          assert run[n - 1].req.msgType == DHCP_MSG_DISCOVER;
        } else {
          var k :| 0 <= k < |s.leases| && s.leases[k].used && s.leases[k].mac == s'.leases[i].mac &&
            s.leases[k].ip == s'.leases[i].ip;
          assert Discovered(c, run, n - 1, s.leases[k].mac, s.leases[k].ip);
        }
      }
    }
  }

  predicate HasLease(leases: seq<Lease>, mac: Mac, ip: u32) {
    exists k :: 0 <= k < |leases| && leases[k].used && leases[k].mac == mac && leases[k].ip == ip
  }

  /** A lease after an event was there before, or is the one its OFFER claimed. */
  lemma ConsumeOrigin(c: Config, s: State, e: Event)
    requires c.Valid()
    ensures var r := Consume(c, s, e);
            && (r.reply.Some? && r.reply.value.kind == Offer ==> e.req.msgType == DHCP_MSG_DISCOVER)
            && forall i :: 0 <= i < |r.state.leases| && r.state.leases[i].used ==>
                 || OffersTo(r.reply, r.state.leases[i].mac, r.state.leases[i].ip)
                 || HasLease(s.leases, r.state.leases[i].mac, r.state.leases[i].ip)
  {
    var swept := s.(leases := Sweep(s.leases, e.sweepAt));
    var r := Consume(c, s, e);
    hide Pick;
    forall i | 0 <= i < |r.state.leases| && r.state.leases[i].used
      ensures OffersTo(r.reply, r.state.leases[i].mac, r.state.leases[i].ip)
           || HasLease(s.leases, r.state.leases[i].mac, r.state.leases[i].ip)
    {
      assert |r.state.leases| == |s.leases|;
      if r.state.leases[i] == swept.leases[i] {
        assert s.leases[i] == swept.leases[i];
      } else if e.req.msgType == DHCP_MSG_REQUEST {
        assert s.leases[i] == swept.leases[i];
      }
    }
  }

  /** Every ACK is preceded by a DISCOVER of the same client that claimed the same address. */
  lemma AckFollowsDiscover(c: Config, run: seq<Event>, i: nat)
    requires c.Valid() && i < |run|
    requires ReplyAt(c, run, i).Some? && ReplyAt(c, run, i).value.kind == Ack
    ensures Discovered(c, run, i, ReplyAt(c, run, i).value.mac, ReplyAt(c, run, i).value.ip)
  {
    LeasesAreDiscovered(c, run, i);
    AckComesFromLease(c, After(c, run, i), run[i]);
    hide Consume, Discovered;
    var leases := After(c, run, i).leases;
    var r := ReplyAt(c, run, i).value;
    var k :| 0 <= k < |leases| && leases[k].used && leases[k].mac == r.mac && leases[k].ip == r.ip;
  }

  lemma AckComesFromLease(c: Config, s: State, e: Event)
    requires c.Valid()
    ensures var r := Consume(c, s, e).reply;
            r.Some? && r.value.kind == Ack ==> HasLease(s.leases, r.value.mac, r.value.ip)
  {
    var leases := Sweep(s.leases, e.sweepAt);
    var i := FindMac(leases, e.req.mac);
    hide Discover;
    DiscoverOnlyOffers(c, s.(leases := leases), e);
    if i < |leases| {
      assert s.leases[i] == leases[i];
    }
  }

  // -------------------------------------------------------- addresses handed out

  /** A host address of the subnet that is not the gateway. */
  predicate Usable(c: Config, ip: u32)
    requires c.Valid()
  {
    c.Network() < ip < c.Broadcast() && ip != c.gateway
  }

  predicate LeasesUsable(c: Config, leases: seq<Lease>)
    requires c.Valid()
  {
    forall i :: 0 <= i < |leases| && leases[i].used ==> Usable(c, leases[i].ip)
  }

  /** The loop stops at the network address, so it never wraps around. */
  lemma {:induction false} WindowInside(c: Config, leases: seq<Lease>, e: Event, k: nat)
    requires c.Valid() && 1 <= k <= c.Broadcast() - c.Network() && PickWindow(c, leases, e, k).Some?
    ensures c.Network() < PickWindow(c, leases, e, k).value < c.Broadcast()
    decreases WINDOW + 1 - k
  {
    hide Available, Config.Network;
    assert Candidate(c, k) == c.Broadcast() - k;
    if !Available(c, leases, Candidate(c, k), e) {
      WindowInside(c, leases, e, k + 1);
    }
  }

  lemma {:induction false} PickIsUsable(c: Config, leases: seq<Lease>, e: Event)
    requires c.Valid() && Usable(c, c.self) && LeasesUsable(c, leases)
    ensures var ip := Pick(c, leases, e); ip.Some? ==> Usable(c, ip.value)
  {
    if PickWindow(c, leases, e, 1).Some? {
      WindowAvailable(c, leases, e, 1);
      WindowInside(c, leases, e, 1);
    }
    hide PickWindow, Taken, TakenByOther, Config.Network, Candidate;
  }

  /** Addresses are preferred in order: the client's own, the relay's, the highest available of the window. */
  lemma {:induction false} PickPrefers(c: Config, leases: seq<Lease>, e: Event)
    requires c.Valid() && c.Broadcast() > c.Network() + WINDOW && OnePerMac(leases)
    ensures forall i :: 0 <= i < |leases| && leases[i].Live(e.readAt) && leases[i].mac == e.req.mac ==>
              Pick(c, leases, e) == Some(leases[i].ip)
    ensures (!HasLive(leases, e.req.mac, e.readAt) && c.self !in e.arp && !Taken(leases, c.self, e.readAt) &&
             (e.switchIp.None? || e.switchIp == Some(c.self))) ==> Pick(c, leases, e) == Some(c.self)
    ensures var ip := Pick(c, leases, e);
            ip.Some? && !HasLive(leases, e.req.mac, e.readAt) && ip.value != c.self ==>
              && ip.value < c.Broadcast()
              && forall x: u32 :: ip.value < x < c.Broadcast() ==> !Available(c, leases, x, e)
  {
    var own := FindMac(leases, e.req.mac);
    var w := PickWindow(c, leases, e, 1);
    if w.Some? {
      WindowIsHighest(c, leases, e, 1);
    }
    hide PickWindow, Available, Config.Network;
  }

  predicate HasLive(leases: seq<Lease>, mac: Mac, now: int) {
    exists i :: 0 <= i < |leases| && leases[i].Live(now) && leases[i].mac == mac
  }

  lemma {:induction false} WindowIsHighest(c: Config, leases: seq<Lease>, e: Event, k: nat)
    requires c.Valid() && 1 <= k && c.Broadcast() > c.Network() + WINDOW && PickWindow(c, leases, e, k).Some?
    ensures PickWindow(c, leases, e, k).value <= c.Broadcast() - k
    ensures forall x: u32 :: PickWindow(c, leases, e, k).value < x <= c.Broadcast() - k ==> !Available(c, leases, x, e)
    decreases WINDOW + 1 - k
  {
    hide Available, Config.Network;
    assert Candidate(c, k) == c.Broadcast() - k;
    if !Available(c, leases, Candidate(c, k), e) {
      WindowIsHighest(c, leases, e, k + 1);
    }
  }

  /** No packet has been seen, nobody is in the ARP cache: the first DISCOVER. */
  function FirstDiscover(mac: Mac): Event {
    Event(Request(mac, DHCP_MSG_DISCOVER, None, 0), 0, 0, 0, {}, None, true)
  }

  /**
   The allocator hands out usable addresses only, if and only if the relay's own
   overlay address is usable: it must differ from the gateway, and must not be
   the network or broadcast address of its subnet.
   */
  lemma PicksAreUsableIff(c: Config)
    requires c.Valid()
    ensures (forall leases: seq<Lease>, e: Event | |leases| == DHCP_LEASE_COUNT && LeasesUsable(c, leases) ::
               Pick(c, leases, e).Some? ==> Usable(c, Pick(c, leases, e).value))
            <==> Usable(c, c.self)
  {
    hide Pick;
    if Usable(c, c.self) {
      forall leases: seq<Lease>, e: Event | |leases| == DHCP_LEASE_COUNT && LeasesUsable(c, leases)
        ensures Pick(c, leases, e).Some? ==> Usable(c, Pick(c, leases, e).value)
      {
        PickIsUsable(c, leases, e);
      }
    } else {
      var e := FirstDiscover([0, 0, 0, 0, 0, 0]);
      FirstPick(c, e);
      assert LeasesUsable(c, NoLeases());
    }
  }

  lemma FirstPick(c: Config, e: Event)
    requires c.Valid() && e.arp == {} && e.switchIp.None?
    ensures Pick(c, NoLeases(), e) == Some(c.self)
  {
    var leases := NoLeases();
    hide NoLeases, PickWindow;
    assert FindMac(leases, e.req.mac) == |leases|;
  }

  /** Over every run, each offered or acknowledged address is usable. */
  lemma {:induction false} RepliesAreUsable(c: Config, run: seq<Event>, n: nat)
    requires c.Valid() && Usable(c, c.self) && n <= |run|
    ensures LeasesUsable(c, After(c, run, n).leases)
    ensures forall i :: 0 <= i < n && ReplyAt(c, run, i).Some? && ReplyAt(c, run, i).value.kind != Nak ==>
              Usable(c, ReplyAt(c, run, i).value.ip)
  {
    if n > 0 {
      RepliesAreUsable(c, run, n - 1);
      hide Consume;
      ConsumeIsUsable(c, After(c, run, n - 1), run[n - 1]);
    }
  }

  lemma {:induction false} ConsumeIsUsable(c: Config, s: State, e: Event)
    requires c.Valid() && Usable(c, c.self) && LeasesUsable(c, s.leases)
    ensures var r := Consume(c, s, e);
            && LeasesUsable(c, r.state.leases)
            && (r.reply.Some? && r.reply.value.kind != Nak ==> Usable(c, r.reply.value.ip))
  {
    var leases := Sweep(s.leases, e.sweepAt);
    PickIsUsable(c, leases, e);
    hide Pick, Usable;
    ConsumeOrigin(c, s, e);
    AckComesFromLease(c, s, e);
  }

  // ------------------------------------------------------------- exhaustion

  /** The k highest addresses below the broadcast. */
  function Window(c: Config, k: nat): set<int>
    requires c.Valid()
  {
    if k == 0 then {} else Window(c, k - 1) + {c.Broadcast() - k}
  }

  lemma {:induction false} WindowSize(c: Config, k: nat)
    requires c.Valid()
    ensures |Window(c, k)| == k
    ensures forall x :: x in Window(c, k) <==> c.Broadcast() - k <= x < c.Broadcast()
  {
    if k > 0 { WindowSize(c, k - 1); }
  }

  function LeasedIps(leases: seq<Lease>): set<int> {
    if leases == [] then {} else LeasedIps(leases[1..]) + {leases[0].ip}
  }

  lemma {:induction false} LeasedIpsSize(leases: seq<Lease>)
    ensures |LeasedIps(leases)| <= |leases|
    ensures forall i :: 0 <= i < |leases| ==> leases[i].ip in LeasedIps(leases)
  {
    if leases != [] {
      LeasedIpsSize(leases[1..]);
      assert forall i :: 1 <= i < |leases| ==> leases[i] == leases[1..][i - 1];
    }
  }

  lemma {:induction false} WindowExhausted(c: Config, leases: seq<Lease>, e: Event, k: nat, j: nat)
    requires c.Valid() && c.Broadcast() > c.Network() + WINDOW && 1 <= k <= j <= WINDOW
    requires PickWindow(c, leases, e, k).None?
    ensures !Available(c, leases, c.Broadcast() - j, e)
    decreases WINDOW + 1 - k
  {
    hide Available, Config.Network;
    assert Candidate(c, k) == c.Broadcast() - k;
    if k < j {
      WindowExhausted(c, leases, e, k + 1, j);
    }
  }

  lemma UnionSize(a: set<int>, b: set<int>)
    ensures |a + b| <= |a| + |b|
  {
    assert a + b == a + (b - a);
    SubsetSize(b - a, b);
  }

  /**
   With the whole window of 24 addresses below the broadcast, the pool counts as
   exhausted only if at least 13 of them are live in the ARP cache: eight leases,
   the gateway, the relay and the Switch can block no more than eleven.
   */
  lemma {:induction false} ExhaustedOnlyByArp(c: Config, leases: seq<Lease>, e: Event)
    requires c.Valid() && c.Broadcast() > c.Network() + WINDOW && |leases| == DHCP_LEASE_COUNT
    requires Pick(c, leases, e).None?
    ensures |Window(c, WINDOW) * (set ip | ip in e.arp :: ip as int)| >= 13
  {
    var window, arp := Window(c, WINDOW), set ip | ip in e.arp :: ip as int;
    var leased := LeasedIps(leases);
    var special: set<int> := {c.gateway, c.self} + (if e.switchIp.Some? then {e.switchIp.value} else {});
    WindowSize(c, WINDOW);
    LeasedIpsSize(leases);
    hide PickWindow, Window, LeasedIps, Config.Network;
    forall x | x in window
      ensures x in window * arp + (special + leased)
    {
      WindowExhausted(c, leases, e, 1, c.Broadcast() - x);
    }
    SubsetSize(window, window * arp + (special + leased));
    UnionSize(window * arp, special + leased);
    UnionSize(special, leased);
  }
}
