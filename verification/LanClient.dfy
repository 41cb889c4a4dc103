/**
 The two loops of src/lan-client.c as they are written: the sender's cutting loop
 and the receiver's searches over the slot array, updated in place.
 */
module LanClient {
  import opened Bytes
  import opened Fragments
  import opened Transit

  class Client {
    const pmtu: nat
    var fragId: nat
    var localId: nat
    const frags: array<Slot>

    ghost predicate Valid()
      reads this, frags
    {
      Model().Valid()
    }

    ghost function Model(): Table
      reads this, frags
    {
      Table(frags[..], localId)
    }

    /** lan_client_init; a pmtu that is set but below the minimum ends the program. */
    constructor (pmtu: nat)
      requires pmtu == 0 || pmtu >= MIN_FRAG_PAYLOAD_LEN
      ensures Valid() && Model() == Init() && fragId == 0 && this.pmtu == pmtu && fresh(frags)
    {
      this.pmtu := pmtu;
      fragId, localId := 0, 0;
      frags := new Slot[LC_FRAG_COUNT](_ => EmptySlot());
      new;
      assert frags[..] == Init().slots;
    }

    /** lan_client_send for IPv4 packets: the datagrams handed to the socket. */
    method SendIpv4(packet: seq<byte>) returns (sent: seq<seq<byte>>)
      requires pmtu == 0 || Cuttable(packet, pmtu)
      modifies `fragId
      ensures sent == Datagrams(packet, pmtu, old(fragId) % 0x1_0000)
      ensures fragId == old(fragId) + if |sent| > 1 then 1 else 0
      ensures sent != [] && CarriedAll(sent) == packet
    {
      DatagramsCarryPacket(packet, pmtu, fragId % 0x1_0000);
      hide CarriedAll;
      if pmtu > 0 {
        var totalPart := |packet| / pmtu;
        if pmtu * totalPart < |packet| {
          totalPart := totalPart + 1;
        }
        if totalPart > 1 {
          var id := fragId % 0x1_0000;
          fragId := fragId + 1;
          sent := CutPacket(packet, id, totalPart);
          return;
        }
      }
      sent := [[LAN_CLIENT_TYPE_IPV4] + packet];
    }

    /** The cutting loop. */
    method CutPacket(packet: seq<byte>, id: u16, totalPart: nat) returns (sent: seq<seq<byte>>)
      requires Cuttable(packet, pmtu) && totalPart == PartCount(|packet|, pmtu) > 1
      ensures sent == Cut(packet, pmtu, id, totalPart)
    {
      CutStep(packet, pmtu, id, 0);
      hide PartCount, PartStart, Encode;
      var src, dst := packet[IPV4_OFF_SRC..IPV4_OFF_SRC + 4], packet[IPV4_OFF_DST..IPV4_OFF_DST + 4];
      sent := [];
      var i, pos := 0, 0;
      PartAt(packet, pmtu, 0);
      PartsEnd(packet, pmtu);
      while pos < |packet|
        invariant 0 <= i <= totalPart && pos == PartStart(|packet|, pmtu, i)
        invariant sent == Cut(packet, pmtu, id, i)
        decreases totalPart - i
      {
        CutStep(packet, pmtu, id, i);
        PartAt(packet, pmtu, i);
        hide Cut;
        var partLen := if pmtu < |packet| - pos then pmtu else |packet| - pos;
        var header := Encode(Header(src, dst, id, i, totalPart, partLen, pmtu));
        sent := sent + [[LAN_CLIENT_TYPE_IPV4_FRAG] + (header + packet[pos..pos + partLen])];
        i := i + 1;
        pos := pos + partLen;
      }
      if i < totalPart {
        PartAt(packet, pmtu, i);
        assert false;
      }
    }

    method SlotOf(k: Key) returns (i: nat)
      requires Valid()
      ensures i == FindKey(frags[..], k)
    {
      i := 0;
      while i < LC_FRAG_COUNT
        invariant 0 <= i <= LC_FRAG_COUNT
        invariant forall j :: 0 <= j < i ==> !Matches(frags[j], k)
      {
        if frags[i].used && frags[i].id == k.id && frags[i].src == k.src {
          break;
        }
        i := i + 1;
      }
      ghost var f := FindKey(frags[..], k);
      assert f < LC_FRAG_COUNT ==> Matches(frags[..][f], k);
      assert i < LC_FRAG_COUNT ==> Matches(frags[..][i], k);
    }

    method FreeSlot() returns (i: nat)
      requires Valid()
      ensures i == FindFree(frags[..])
    {
      i := 0;
      while i < LC_FRAG_COUNT
        invariant 0 <= i <= LC_FRAG_COUNT
        invariant forall j :: 0 <= j < i ==> frags[j].used
      {
        if !frags[i].used {
          break;
        }
        i := i + 1;
      }
      ghost var f := FindFree(frags[..]);
      assert f < LC_FRAG_COUNT ==> !frags[..][f].used;
      assert i < LC_FRAG_COUNT ==> !frags[..][i].used;
    }

    method OldestSlot() returns (i: nat, maxAge: nat)
      requires Valid()
      ensures (i, maxAge) == Oldest(Model(), LC_FRAG_COUNT)
    {
      i, maxAge := 0, 0;
      for n := 0 to LC_FRAG_COUNT
        invariant (i, maxAge) == Oldest(Model(), n)
      {
        if frags[n].used {
          var age := Abs(frags[n].localId - localId);
          if age > maxAge {
            i, maxAge := n, age;
          }
        }
      }
    }

    method OpenSlot(i: nat, k: Key)
      requires Valid() && i < LC_FRAG_COUNT
      modifies frags, `localId
      ensures Valid() && Model() == Opened(old(Model()), i, k)
    {
      frags[i] := frags[i].(used := true, id := k.id, localId := localId % 0x1_0000, src := k.src, part := 0);
      localId := localId + 1;
      assert frags[..] == old(frags[..])[i := frags[i]];
    }

    /** The three searches of lan_client_process_frag. */
    method LocateSlot(k: Key) returns (r: Option<nat>)
      requires Valid()
      modifies frags, `localId
      ensures Valid()
      ensures Locate(old(Model()), k) == if r.None? then None else Some((r.value, Model()))
      ensures r.None? ==> Model() == old(Model())
    {
      hide Oldest, FindKey, FindFree;
      OldestIndex(Model(), LC_FRAG_COUNT);
      var i := SlotOf(k);
      if i < LC_FRAG_COUNT {
        return Some(i);
      }
      i := FreeSlot();
      if i == LC_FRAG_COUNT {
        var maxAge;
        i, maxAge := OldestSlot();
        if maxAge <= LC_FRAG_COUNT {
          return None;
        }
      }
      OpenSlot(i, k);
      return Some(i);
    }

    /** The part bit, the memcpy and, for the last part, the total length. */
    method CopyPart(before: Slot, packet: seq<byte>) returns (slot: Slot)
      requires before.Valid() && InBounds(packet)
      ensures slot == Filled(before, packet)
    {
      hide Offset, Put, Decode, Bit;
      var h := Decode(packet);
      slot := before.(part := before.part | Bit(h.part));
      slot := slot.(buffer := Put(slot.buffer, Offset(h), packet[LC_FRAG_HEADER_LEN..LC_FRAG_HEADER_LEN + h.len]));
      if h.part == h.totalPart - 1 {
        slot := slot.(totalLen := Offset(h) + h.len);
      }
    }

    /** lan_client_process_frag: what is handed to lan_client_process, if anything. */
    method ProcessFrag(packet: seq<byte>) returns (delivered: Option<seq<byte>>)
      requires Valid() && InBounds(packet)
      modifies frags, `localId
      ensures Valid()
      ensures Outcome(Model(), delivered) == Process(old(Model()), packet)
    {
      var h := Decode(packet);
      hide Locate, Filled, Decode, IsFull;
      var r := LocateSlot(Key(h.src, h.id));
      if r.None? {
        return None;
      }
      ghost var t := Model();
      var i := r.value;
      var slot := CopyPart(frags[i], packet);
      if IsFull(slot.part, h.totalPart) {
        delivered := Some(slot.buffer[..slot.totalLen]);
        slot := slot.(used := false);
      } else {
        delivered := None;
      }
      frags[i] := slot;
      assert frags[..] == t.slots[i := slot];
    }

    /** lan_client_on_recv, for the two kinds of packet datagrams; the type is the low seven bits of the first byte. */
    method OnRecv(datagram: seq<byte>) returns (delivered: Option<seq<byte>>)
      requires Valid() && Receivable(datagram)
      modifies frags, `localId
      ensures Valid()
      ensures Outcome(Model(), delivered) == Receive(old(Model()), datagram)
    {
      if |datagram| <= 1 {
        return None;
      }
      var kind := datagram[0] % 128;
      if kind == LAN_CLIENT_TYPE_IPV4 {
        return Some(datagram[1..]);
      } else if kind == LAN_CLIENT_TYPE_IPV4_FRAG {
        delivered := ProcessFrag(datagram[1..]);
      } else {
        delivered := None;
      }
    }
  }
}
