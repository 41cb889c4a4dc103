/**
 A packet's way through the relay server, from lan_client_send to the receiver's
 lan_client_on_recv in src/lan-client.c: whole or in fragments, it arrives once
 and unchanged.
 */
module Transit {
  import opened Bytes
  import opened Fragments
  import opened Reassembly
  import opened Eviction

  /** Datagrams whose fragment, if they carry one, the receiver has room for. */
  predicate Receivable(d: seq<byte>) {
    d != [] && d[0] % 128 == LAN_CLIENT_TYPE_IPV4_FRAG ==> InBounds(d[1..])
  }

  /** lan_client_on_recv, as far as packets go: what is handed on, if anything. */
  function Receive(t: Table, d: seq<byte>): (r: Outcome)
    requires t.Valid() && Receivable(d)
    ensures r.table.Valid()
  {
    if |d| <= 1 then Outcome(t, None)
    else if d[0] % 128 == LAN_CLIENT_TYPE_IPV4 then Outcome(t, Some(d[1..]))
    else if d[0] % 128 == LAN_CLIENT_TYPE_IPV4_FRAG then Process(t, d[1..])
    else Outcome(t, None)
  }

  predicate AllReceivable(ds: seq<seq<byte>>) {
    forall d <- ds :: Receivable(d)
  }

  /** The table after a run of datagrams, and all packets handed on. */
  function ReceiveAll(t: Table, ds: seq<seq<byte>>): (r: (Table, seq<seq<byte>>))
    requires t.Valid() && AllReceivable(ds)
    ensures r.0.Valid()
  {
    if ds == [] then (t, []) else
    var (t1, delivered) := ReceiveAll(t, ds[..|ds| - 1]);
    assert ds[|ds| - 1] in ds;
    var last := Receive(t1, ds[|ds| - 1]);
    (last.table, delivered + match last.delivered case Some(p) => [p] case None => [])
  }

  /** The bytes a datagram carries behind the type byte and the fragment header. */
  function Carried(d: seq<byte>): seq<byte> {
    if d == [] then []
    else if d[0] == LAN_CLIENT_TYPE_IPV4_FRAG && |d| > LC_FRAG_HEADER_LEN then d[1 + LC_FRAG_HEADER_LEN..]
    else d[1..]
  }

  function CarriedAll(ds: seq<seq<byte>>): seq<byte> {
    if ds == [] then [] else CarriedAll(ds[..|ds| - 1]) + Carried(ds[|ds| - 1])
  }

  /** Whatever its length and the part size, the datagrams of a packet carry the packet. */
  lemma {:induction false} DatagramsCarryPacket(packet: seq<byte>, pmtu: nat, id: u16)
    requires pmtu == 0 || Cuttable(packet, pmtu)
    ensures Datagrams(packet, pmtu, id) != [] && CarriedAll(Datagrams(packet, pmtu, id)) == packet
  {
    hide Cut;
    if pmtu > 0 && PartCount(|packet|, pmtu) > 1 {
      CarriedPayloads(packet, pmtu, id, PartCount(|packet|, pmtu));
      CutIsWhole(packet, pmtu, id);
    } else {
      var whole: seq<byte> := [LAN_CLIENT_TYPE_IPV4] + packet;
      assert Datagrams(packet, pmtu, id) == [whole] && [whole][..0] == [] && whole[1..] == packet;
      assert CarriedAll([whole]) == CarriedAll([]) + Carried(whole);
    }
  }

  lemma {:induction false} CarriedPayloads(packet: seq<byte>, pmtu: nat, id: u16, n: nat)
    requires Cuttable(packet, pmtu) && 1 < PartCount(|packet|, pmtu) && n <= PartCount(|packet|, pmtu)
    ensures CarriedAll(Cut(packet, pmtu, id, n)) == Payloads(packet, pmtu, id, n)
  {
    if n > 0 {
      CarriedPayloads(packet, pmtu, id, n - 1);
      CutStep(packet, pmtu, id, n - 1);
      hide Encode, PartStart, PartCount, PartLen;
      var ds, before := Cut(packet, pmtu, id, n), Cut(packet, pmtu, id, n - 1);
      assert ds[..n - 1] == before;
    }
  }

  // ------------------------------------------------------------- delivery

  function Upto(n: nat): (r: set<nat>)
    ensures forall k: nat :: k in r <==> k < n
  {
    if n == 0 then {} else Upto(n - 1) + {n - 1}
  }

  /** The packet is not open, and slot f is the first free one. */
  ghost predicate HasRoom(t: Table, k: Key, f: nat) {
    && t.Valid() && f < LC_FRAG_COUNT && f == FindFree(t.slots)
    && forall i :: 0 <= i < LC_FRAG_COUNT ==> !Matches(t.slots[i], k)
  }

  /** Only slot f differs. */
  ghost predicate SameButSlot(t: Table, t': Table, f: nat) {
    t.Valid() && t'.Valid() && forall i :: 0 <= i < LC_FRAG_COUNT && i != f ==> t'.slots[i] == t.slots[i]
  }

  /** After the first i fragments of the packet, they are in slot f. */
  ghost predicate Partly(t: Table, t': Table, s: Sent, k: Key, f: nat, i: nat) {
    && SameButSlot(t, t', f) && f < LC_FRAG_COUNT && t'.localId == t.localId + 1
    && t'.slots[f].used && KeyOf(t'.slots[f]) == k && Holds(t'.slots[f], s, Upto(i))
  }

  lemma LocateRoom(t: Table, k: Key, f: nat)
    requires HasRoom(t, k, f)
    ensures Locate(t, k) == Some((f, Opened(t, f, k)))
  {
    hide Oldest;
  }

  lemma LocatePartly(t: Table, t': Table, s: Sent, k: Key, f: nat, i: nat)
    requires HasRoom(t, k, f) && Partly(t, t', s, k, f, i)
    ensures Locate(t', k) == Some((f, t'))
  {
    hide Oldest, Holds;
    assert Matches(t'.slots[f], k);
    forall j | 0 <= j < LC_FRAG_COUNT && j != f
      ensures !Matches(t'.slots[j], k)
    {
    }
  }

  lemma {:induction false} FirstPart(t: Table, w: World, k: Key, f: nat)
    requires HasRoom(t, k, f) && ValidWorld(w) && k in w && w[k].Valid()
    ensures var r := Process(t, Wire(w, Arrival(k, 0)));
            r.delivered == None && Partly(t, r.table, w[k], k, f, 1)
  {
    hide Wire, IsFull, Filled, Holds, Locate, Process, OpenedSlot;
    LocateRoom(t, k, f);
    FirstFragment(t.slots[f], w, Arrival(k, 0), t.localId);
    ProcessOpens(t, w, Arrival(k, 0), f);
    assert Upto(1) == {0};
  }

  /** A further fragment is kept, or completes the packet. */
  lemma {:induction false} NextPart(t: Table, t': Table, w: World, k: Key, f: nat, i: nat)
    requires HasRoom(t, k, f) && ValidWorld(w) && k in w && w[k].Valid() && 0 < i < w[k].Count()
    requires Partly(t, t', w[k], k, f, i)
    ensures var r := Process(t', Wire(w, Arrival(k, i)));
            if i + 1 < w[k].Count() then r.delivered == None && Partly(t, r.table, w[k], k, f, i + 1)
            else r.delivered == Some(w[k].packet) && SameButSlot(t, r.table, f) && !r.table.slots[f].used
  {
    hide Wire, IsFull, Filled, Holds, Locate;
    var a := Arrival(k, i);
    LocatePartly(t, t', w[k], k, f, i);
    FillFull(t'.slots[f], w, a, Upto(i));
    assert Upto(i) + {i} == Upto(i + 1);
    assert w[k].Complete(Upto(i + 1)) <==> i + 1 == w[k].Count() by {
      if i + 1 < w[k].Count() {
        assert i + 1 !in Upto(i + 1);
      }
    }
    ArrivalBytes(w, a);
    FilledFields(t'.slots[f], w, a);
  }

  /** The datagrams of a cut packet are the fragments of the receiver's theorems. */
  lemma {:induction false} CutIsWire(w: World, k: Key, i: nat)
    requires ValidWorld(w) && k in w && w[k].Valid() && i < w[k].Count()
    ensures |Datagrams(w[k].packet, w[k].pmtu, k.id)| == w[k].Count()
    ensures var d := Datagrams(w[k].packet, w[k].pmtu, k.id)[i];
            |d| > 1 && d[0] == LAN_CLIENT_TYPE_IPV4_FRAG && d[1..] == Wire(w, Arrival(k, i)) && Receivable(d)
  {
    SentIsReceived(w, k, i);
    hide Wire, Datagrams;
    var p := Wire(w, Arrival(k, i));
    assert ([LAN_CLIENT_TYPE_IPV4_FRAG] + p)[1..] == p;
  }

  lemma ReceiveNext(t: Table, ds: seq<seq<byte>>, n: nat)
    requires t.Valid() && AllReceivable(ds) && n < |ds|
    ensures AllReceivable(ds[..n]) && AllReceivable(ds[..n + 1]) && Receivable(ds[n])
    ensures var (t1, delivered) := ReceiveAll(t, ds[..n]);
            var last := Receive(t1, ds[n]);
            ReceiveAll(t, ds[..n + 1]) ==
              (last.table, delivered + match last.delivered case Some(p) => [p] case None => [])
  {
    hide Receive, Receivable;
    assert ds[..n + 1][..n] == ds[..n] && ds[n] in ds;
  }

  lemma {:induction false} PartsReceived(t: Table, w: World, k: Key, f: nat, n: nat)
    requires HasRoom(t, k, f) && ValidWorld(w) && k in w && w[k].Valid() && 0 < n <= w[k].Count()
    requires AllReceivable(Datagrams(w[k].packet, w[k].pmtu, k.id))
    requires |Datagrams(w[k].packet, w[k].pmtu, k.id)| == w[k].Count()
    ensures var ds := Datagrams(w[k].packet, w[k].pmtu, k.id);
            && AllReceivable(ds[..n])
            && var (t', delivered) := ReceiveAll(t, ds[..n]);
               if n < w[k].Count() then delivered == [] && Partly(t, t', w[k], k, f, n)
               else delivered == [w[k].packet] && SameButSlot(t, t', f) && f < LC_FRAG_COUNT && !t'.slots[f].used
  {
    hide Wire, Process, Partly, SameButSlot, HasRoom, ValidWorld, ReceiveAll, AllReceivable, Datagrams, Receivable;
    var ds := Datagrams(w[k].packet, w[k].pmtu, k.id);
    CountAbove(w[k]);
    RoomIsValid(t, k, f);
    ReceiveNext(t, ds, n - 1);
    CutIsWire(w, k, n - 1);
    if n == 1 {
      ReceiveNothing(t, ds[..0]);
      FirstPart(t, w, k, f);
    } else {
      PartsReceived(t, w, k, f, n - 1);
      NextPart(t, ReceiveAll(t, ds[..n - 1]).0, w, k, f, n - 1);
    }
  }

  lemma CountAbove(s: Sent)
    requires s.Valid()
    ensures s.Count() > 1
  {
  }

  lemma RoomIsValid(t: Table, k: Key, f: nat)
    requires HasRoom(t, k, f)
    ensures t.Valid() && f < LC_FRAG_COUNT
  {
  }

  lemma ReceiveNothing(t: Table, ds: seq<seq<byte>>)
    requires t.Valid() && ds == []
    ensures AllReceivable(ds) && ReceiveAll(t, ds) == (t, [])
  {
  }

  /**
   The round trip: a packet of 20 to 1500 bytes, sent with or without a part
   size, at a receiver that does not have a packet of its source and id open and
   has a free slot. The datagrams arrive in order; the receiver hands on exactly
   that packet, exactly once, its slot is free again and no other is touched.
   */
  lemma {:induction false} ArrivesOnce(packet: seq<byte>, pmtu: nat, id: u16, t: Table, f: nat)
    requires 20 <= |packet| <= ETHER_MTU && (pmtu == 0 || pmtu >= MIN_FRAG_PAYLOAD_LEN)
    requires HasRoom(t, Key(packet[IPV4_OFF_SRC..IPV4_OFF_SRC + 4], id), f)
    ensures var ds := Datagrams(packet, pmtu, id);
            && AllReceivable(ds)
            && var (t', delivered) := ReceiveAll(t, ds);
               delivered == [packet] && SameButSlot(t, t', f) && !t'.slots[f].used
  {
    var ds := Datagrams(packet, pmtu, id);
    if pmtu > 0 && PartCount(|packet|, pmtu) > 1 {
      CutArrives(packet, pmtu, id, t, f);
    } else {
      WholeArrives(packet, t);
    }
  }

  lemma {:induction false} CutArrives(packet: seq<byte>, pmtu: nat, id: u16, t: Table, f: nat)
    requires Sendable(packet, pmtu) && PartCount(|packet|, pmtu) > 1
    requires HasRoom(t, Key(packet[IPV4_OFF_SRC..IPV4_OFF_SRC + 4], id), f)
    ensures var ds := Datagrams(packet, pmtu, id);
            && AllReceivable(ds)
            && var (t', delivered) := ReceiveAll(t, ds);
               delivered == [packet] && SameButSlot(t, t', f) && f < LC_FRAG_COUNT && !t'.slots[f].used
  {
    var k := Key(packet[IPV4_OFF_SRC..IPV4_OFF_SRC + 4], id);
    var w: World := map[k := Sent(packet, pmtu)];
    var ds := Datagrams(packet, pmtu, id);
    hide Datagrams, ReceiveAll, HasRoom, SameButSlot, Receivable, PartCount;
    CutIsWire(w, k, 0);
    forall i | 0 <= i < |ds|
      ensures Receivable(ds[i])
    {
      CutIsWire(w, k, i);
    }
    PartsReceived(t, w, k, f, |ds|);
    assert ds[..|ds|] == ds;
  }

  lemma {:induction false} WholeArrives(packet: seq<byte>, t: Table)
    requires t.Valid() && packet != []
    ensures var ds := [[LAN_CLIENT_TYPE_IPV4] + packet];
            AllReceivable(ds) && ReceiveAll(t, ds) == (t, [packet])
  {
    hide Table.Valid, InBounds, Process, ReceiveAll;
    var d: seq<byte> := [LAN_CLIENT_TYPE_IPV4] + packet;
    var ds := [d];
    assert d[0] == LAN_CLIENT_TYPE_IPV4 && d[1..] == packet;
    assert ds[..0] == [] && ds[..1] == ds && ds[0] == d;
    ReceiveNothing(t, ds[..0]);
    ReceiveNext(t, ds, 0);
    assert Receive(t, d) == Outcome(t, Some(packet));
    assert [] + [packet] == [packet];
  }

  /** The top bit of the type does not matter, and only types 1 and 3 carry packets. */
  lemma TypeDecides(t: Table, d: seq<byte>, flagged: seq<byte>)
    requires t.Valid() && d != [] && d[0] < 128 && flagged == [d[0] + 128] + d[1..] && Receivable(d)
    ensures Receivable(flagged) && Receive(t, flagged) == Receive(t, d)
    ensures d[0] != 1 && d[0] != 3 ==> Receive(t, d) == Outcome(t, None)
  {
    hide Process, InBounds, Table.Valid;
    assert flagged[1..] == d[1..] && |flagged| == |d| && flagged[0] % 128 == d[0];
  }
}
