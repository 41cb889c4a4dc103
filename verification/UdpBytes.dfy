/**
 Routing at the public relay server in terms of the bytes it receives: whose
 address a datagram claims, and where later datagrams for that address go.
 */
module UdpBytes {
  import opened Bytes
  import opened UdpServer
  import opened UdpForwarding
  import opened UdpRouting

  /** Nobody claims the address in this event, and housekeeping does not come after its time. */
  predicate Leaves(e: Event, ip: Ip, expireAt: int) {
    && (e.Datagram? ==> Claimed(e.msg) != Some(ip))
    && (e.Housekeeping? ==> e.later <= expireAt)
  }

  lemma LeavesIsSpares(e: Event, ip: Ip, expireAt: int)
    requires Leaves(e, ip, expireAt)
    ensures Spares(e, ip, expireAt)
  {
    if e.Datagram? {
      EventBytes(e);
    }
  }

  /** Exactly this datagram has been sent on, to this address alone. */
  predicate SentOnTo(before: seq<Frame>, after: seq<Frame>, to: Addr, msg: seq<byte>)
    requires msg != []
  {
    && |after| == |before| + 1 && before <= after
    && var f := after[|before|];
       f.Unicast? && f.to == to && f.kind == msg[0] % 128 && f.payload == msg[1..]
  }

  /**
   A permitted datagram makes the address it claims a route to its sender: until
   somebody claims the address again or 30 seconds have passed, every permitted
   datagram for that address is sent on to that sender and to nobody else,
   whatever happens in between.
   */
  lemma {:induction false} RepliesGoToClaimant(s: Server, auth: bool, past: seq<Event>, claim: Event,
                                               between: seq<Event>, e: Event)
    requires Inv(s, auth) && Traced(s, past) && claim.Datagram? && e.Datagram?
    requires Claimed(claim.msg).Some? && Permitted(s, auth, claim.rinfo)
    requires forall other <- between :: Leaves(other, Claimed(claim.msg).value, claim.later + 30000)
    requires Wanted(e.msg) == Claimed(claim.msg) != Claimed(e.msg)
    requires Permitted(Run(s, auth, [claim] + between), auth, e.rinfo)
    ensures var s1 := Run(s, auth, [claim] + between);
            e.msg != [] && SentOnTo(s1.sent, Step(s1, auth, e).sent, claim.rinfo, e.msg)
  {
    var ip := Claimed(claim.msg).value;
    EventBytes(claim);
    EventBytes(e);
    assert ([claim] + between)[0] == claim && ([claim] + between)[1..] == between;
    var p := PacketIsForwarded(s, auth, claim);
    StepKeepsInv(s, auth, claim);
    RunTraced(s, auth, past, [claim]);
    RunOne(s, auth, claim);
    var s' := Step(s, auth, claim);
    forall other <- between
      ensures Spares(other, ip, claim.later + 30000)
    {
      LeavesIsSpares(other, ip, claim.later + 30000);
    }
    hide Step, Inv, Traced, PacketEvent, Leaves, Spares, Permitted, Delivered;
    var q := RouteIsUsed(s', auth, past + [claim], between, e);
  }

  lemma RunOne(s: Server, auth: bool, e: Event)
    requires Inv(s, auth)
    ensures Inv(Step(s, auth, e), auth) && Run(s, auth, [e]) == Step(s, auth, e)
  {
    hide Step;
    StepKeepsInv(s, auth, e);
    assert [e][1..] == [];
  }

  /** A datagram in which the server does not read two addresses is not sent on, whoever it comes from. */
  lemma UnaddressedIsDropped(s: Server, auth: bool, e: Event)
    requires Inv(s, auth) && Keyed(s) && e.Datagram? && Claimed(e.msg) == None && Permitted(s, auth, e.rinfo)
    requires e.msg != [] && e.msg[0] != 2
    ensures Step(s, auth, e).sent == s.sent && Step(s, auth, e).ipCache == s.ipCache
  {
    EventBytes(e);
    GetRefs(s, e.rinfo, e.now);
    GetKeyed(s, e.rinfo, e.now);
    var (s1, p) := Get(s, e.rinfo, e.now);
    hide FillsInOrder, NeedAuth, FloodFrames;
  }
}
