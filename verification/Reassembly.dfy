/**
 Correctness of the fragment table of src/lan-client.c against a map from open
 packets to the parts received so far, for every interleaving, reordering and
 duplication of fragments.
 */
module Reassembly {
  import opened Bytes
  import opened Fragments

  /** A packet in transit, with the pmtu of its sender. */
  datatype Sent = Sent(packet: seq<byte>, pmtu: nat) {
    predicate Valid() {
      Sendable(packet, pmtu) && PartCount(|packet|, pmtu) > 1
    }

    function Count(): nat
      requires Valid()
    {
      PartCount(|packet|, pmtu)
    }

    predicate Complete(got: set<nat>)
      requires Valid()
    {
      forall j: nat :: j < Count() ==> j in got
    }
  }

  /** The fragmented packets of a run, by source address and identifier. */
  type World = map<Key, Sent>

  ghost predicate ValidWorld(w: World) {
    forall k <- w :: w[k].Valid() && w[k].packet[IPV4_OFF_SRC..IPV4_OFF_SRC + 4] == k.src
  }

  /** A fragment on its way: part `part` of packet `key`. */
  datatype Arrival = Arrival(key: Key, part: nat)

  ghost predicate Of(w: World, a: Arrival) {
    a.key in w && w[a.key].Valid() && a.part < w[a.key].Count()
  }

  /** The fragment as lan_client_process_frag is given it, after the type byte. */
  function Wire(w: World, a: Arrival): (p: seq<byte>)
    requires Of(w, a)
    ensures InBounds(p)
  {
    PartBytes(w[a.key], a.key.id, a.part);
    Part(w[a.key].packet, w[a.key].pmtu, a.key.id, a.part)
  }

  /** A part is where it says in the packet, and within the receiver's bounds. */
  lemma {:induction false} PartBytes(s: Sent, id: u16, i: nat)
    requires s.Valid() && i < s.Count()
    ensures s.Count() <= 3 && s.pmtu < |s.packet| && i * s.pmtu < |s.packet|
    ensures var p := Part(s.packet, s.pmtu, id, i);
            && InBounds(p)
            && Decode(p) == PartHeader(s.packet, s.pmtu, id, i)
            && var h := Decode(p);
               && Offset(h) == i * s.pmtu && Offset(h) + h.len <= |s.packet|
               && p[LC_FRAG_HEADER_LEN..LC_FRAG_HEADER_LEN + h.len] == s.packet[Offset(h)..Offset(h) + h.len]
  {
    SendableParts(s.packet, s.pmtu);
    PartsCover(|s.packet|, s.pmtu, i);
    var p, h := Part(s.packet, s.pmtu, id, i), PartHeader(s.packet, s.pmtu, id, i);
    var off, len := i * s.pmtu, PartLen(|s.packet|, s.pmtu, i);
    DecodeEncode(h, s.packet[off..off + len]);
    assert |p| == LC_FRAG_HEADER_LEN + len;
    hide Decode, Encode, Part, PartCount;
    assert Offset(h) == off;
    assert p[LC_FRAG_HEADER_LEN..LC_FRAG_HEADER_LEN + len] == p[LC_FRAG_HEADER_LEN..];
  }

  /** The receiver's copy of this fragment stays inside its buffer and bitmap. */
  predicate FitsReceiver(packet: seq<byte>, pmtu: nat, id: u16, i: nat)
    requires Cuttable(packet, pmtu) && 1 < PartCount(|packet|, pmtu) && i < PartCount(|packet|, pmtu)
  {
    CuttableParts(packet, pmtu);
    PartsCover(|packet|, pmtu, i);
    InBounds(Part(packet, pmtu, id, i))
  }

  /** The sender cuts packets of any length; a receiver has room for all the parts exactly up to the Ethernet MTU. */
  lemma FitsReceiverIff(packet: seq<byte>, pmtu: nat, id: u16)
    requires Cuttable(packet, pmtu) && 1 < PartCount(|packet|, pmtu)
    ensures (forall i :: 0 <= i < PartCount(|packet|, pmtu) ==> FitsReceiver(packet, pmtu, id, i)) <==>
      |packet| <= ETHER_MTU
  {
    CuttableParts(packet, pmtu);
    if |packet| <= ETHER_MTU {
      forall i | 0 <= i < PartCount(|packet|, pmtu)
        ensures FitsReceiver(packet, pmtu, id, i)
      {
        PartBytes(Sent(packet, pmtu), id, i);
      }
    } else {
      LastPartLeaves(packet, pmtu, id);
    }
  }

  lemma LastPartLeaves(packet: seq<byte>, pmtu: nat, id: u16)
    requires Cuttable(packet, pmtu) && 1 < PartCount(|packet|, pmtu) && |packet| > ETHER_MTU
    ensures !FitsReceiver(packet, pmtu, id, PartCount(|packet|, pmtu) - 1)
  {
    var i := PartCount(|packet|, pmtu) - 1;
    CuttableParts(packet, pmtu);
    PartAt(packet, pmtu, i);
    PartsEnd(packet, pmtu);
    var h := PartHeader(packet, pmtu, id, i);
    DecodeEncode(h, packet[i * pmtu..i * pmtu + PartLen(|packet|, pmtu, i)]);
    hide PartCount, Encode, Decode, PartLen;
    assert Offset(h) + h.len == |packet|;
  }

  lemma {:induction false} ArrivalBytes(w: World, a: Arrival)
    requires ValidWorld(w) && Of(w, a)
    ensures var s, p := w[a.key], Wire(w, a);
            && var h := Decode(p);
               && Key(h.src, h.id) == a.key && h.part == a.part && h.totalPart == s.Count() <= 3
               && Offset(h) == a.part * s.pmtu && Offset(h) + h.len <= |s.packet|
               && h.len == PartLen(|s.packet|, s.pmtu, a.part)
               && p[LC_FRAG_HEADER_LEN..LC_FRAG_HEADER_LEN + h.len] == s.packet[Offset(h)..Offset(h) + h.len]
  {
    PartBytes(w[a.key], a.key.id, a.part);
  }

  // ---------------------------------------------------------------- one slot

  lemma HasAfterSet(p: bv8, k: nat, j: nat)
    requires k < 8 && j < 8
    ensures Has(p | Bit(k), j) <==> Has(p, j) || j == k
  {
  }

  lemma FullIff(p: bv8, n: nat)
    requires n <= 8
    ensures IsFull(p, n) <==> forall j: nat :: j < 8 ==> (Has(p, j) <==> j < n)
  {
    assert forall j: nat :: j < 8 ==> (Has(Mask(n), j) <==> j < n);
    if forall j: nat :: j < 8 ==> (Has(p, j) <==> j < n) {
      assert Has(p, 0) <==> Has(Mask(n), 0);
      assert Has(p, 1) <==> Has(Mask(n), 1);
      assert Has(p, 2) <==> Has(Mask(n), 2);
      assert Has(p, 3) <==> Has(Mask(n), 3);
      assert Has(p, 4) <==> Has(Mask(n), 4);
      assert Has(p, 5) <==> Has(Mask(n), 5);
      assert Has(p, 6) <==> Has(Mask(n), 6);
      assert Has(p, 7) <==> Has(Mask(n), 7);
    }
  }

  function Start(s: Sent, j: nat): nat {
    j * s.pmtu
  }

  function End(s: Sent, j: nat): nat {
    if (j + 1) * s.pmtu < |s.packet| then (j + 1) * s.pmtu else |s.packet|
  }

  /** Byte x lies in part j. */
  predicate InPart(s: Sent, j: nat, x: nat) {
    Start(s, j) <= x < End(s, j)
  }

  lemma PartRange(s: Sent, j: nat)
    requires s.Valid() && j < s.Count()
    ensures j * s.pmtu == Start(s, j) < |s.packet|
    ensures Start(s, j) + PartLen(|s.packet|, s.pmtu, j) == End(s, j)
  {
    PartsCover(|s.packet|, s.pmtu, j);
  }

  lemma EveryByteInAPart(s: Sent, x: nat) returns (j: nat)
    requires s.Valid() && x < |s.packet|
    ensures j < s.Count() && InPart(s, j, x)
  {
    j := x / s.pmtu;
    assert x == s.pmtu * j + x % s.pmtu;
    assert j * s.pmtu <= x < (j + 1) * s.pmtu;
    PartsCover(|s.packet|, s.pmtu, j);
  }

  /** The slot holds exactly the parts `got` of packet s. */
  ghost predicate Holds(slot: Slot, s: Sent, got: set<nat>) {
    && slot.Valid() && s.Valid()
    && (forall j: nat :: j < 8 ==> (Has(slot.part, j) <==> j in got))
    && (forall j <- got :: j < s.Count())
    && (forall j: nat, x: nat :: j in got && InPart(s, j, x) ==> slot.buffer[x] == s.packet[x])
    && (s.Count() - 1 in got ==> slot.totalLen == |s.packet|)
  }

  lemma {:induction false} FilledFields(slot: Slot, w: World, a: Arrival)
    requires ValidWorld(w) && Of(w, a) && slot.Valid()
    ensures var s, slot' := w[a.key], Filled(slot, Wire(w, a));
            var start, end := Start(s, a.part), End(s, a.part);
            && slot'.part == slot.part | Bit(a.part) && a.part < 8
            && start <= end <= |s.packet| <= ETHER_MTU
            && slot'.buffer == Put(slot.buffer, start, s.packet[start..end])
            && slot'.totalLen == (if a.part == s.Count() - 1 then |s.packet| else slot.totalLen)
  {
    ArrivalBytes(w, a);
    LastPart(w[a.key], a.part);
    PartRange(w[a.key], a.part);
    hide Wire, Decode, InBounds, PartLen, PartCount, Bit, Start, End;
  }

  lemma {:induction false} FillHolds(slot: Slot, w: World, a: Arrival, got: set<nat>)
    requires ValidWorld(w) && Of(w, a) && Holds(slot, w[a.key], got)
    ensures Holds(Filled(slot, Wire(w, a)), w[a.key], got + {a.part})
  {
    FilledFields(slot, w, a);
    hide Wire, Filled, PartCount, Start, End;
    var s, slot' := w[a.key], Filled(slot, Wire(w, a));
    var start, end := Start(s, a.part), End(s, a.part);
    forall j: nat | j < 8
      ensures Has(slot'.part, j) <==> j in got + {a.part}
    {
      HasAfterSet(slot.part, a.part, j);
    }
    hide Has;
    forall j: nat, x: nat | j in got + {a.part} && InPart(s, j, x)
      ensures slot'.buffer[x] == s.packet[x]
    {
      PutAt(slot.buffer, start, s.packet[start..end], x);
    }
  }

  lemma PutAt(buffer: seq<byte>, off: nat, data: seq<byte>, x: nat)
    requires off + |data| <= |buffer| && x < |buffer|
    ensures Put(buffer, off, data)[x] == if off <= x < off + |data| then data[x - off] else buffer[x]
  {
  }

  /** The last part ends where the packet ends. */
  lemma LastPart(s: Sent, i: nat)
    requires s.Valid() && i < s.Count()
    ensures i == s.Count() - 1 ==> i * s.pmtu + PartLen(|s.packet|, s.pmtu, i) == |s.packet|
  {
    PartsCover(|s.packet|, s.pmtu, i);
    PartsCover(|s.packet|, s.pmtu, i + 1);
    assert (i + 1) * s.pmtu == i * s.pmtu + s.pmtu;
  }

  /** The bitmap test recognises completeness, and a complete slot contains the packet. */
  lemma FullHolds(slot: Slot, s: Sent, got: set<nat>)
    requires Holds(slot, s, got) && s.Count() <= 8
    ensures IsFull(slot.part, s.Count()) <==> s.Complete(got)
    ensures s.Complete(got) ==> Delivery(slot) == s.packet
  {
    FullIff(slot.part, s.Count());
    if s.Complete(got) {
      assert s.Count() - 1 in got;
      forall x: nat | x < |s.packet|
        ensures slot.buffer[x] == s.packet[x]
      {
        var j := EveryByteInAPart(s, x);
      }
    }
  }

  // --------------------------------------------------------------- the table

  /** The packets of which some parts, but not all, are in the table. */
  type Open = map<Key, set<nat>>

  function KeyOf(s: Slot): Key {
    Key(s.src, s.id)
  }

  /** Slot at[k] holds the parts of each open packet k, and no other slot is in use. */
  ghost predicate Represents(slots: seq<Slot>, open: Open, at: map<Key, nat>, w: World) {
    && |slots| == LC_FRAG_COUNT
    && (forall i :: 0 <= i < |slots| ==> slots[i].Valid())
    && at.Keys == open.Keys
    && (forall k <- open :: InSlot(slots, open, at, w, k))
    && (forall i :: 0 <= i < |slots| && slots[i].used ==> KeyOf(slots[i]) in open && at[KeyOf(slots[i])] == i)
  }

  ghost predicate InSlot(slots: seq<Slot>, open: Open, at: map<Key, nat>, w: World, k: Key)
    requires k in open && at.Keys == open.Keys
  {
    && at[k] < |slots| && Matches(slots[at[k]], k)
    && k in w && Holds(slots[at[k]], w[k], open[k]) && !w[k].Complete(open[k])
  }

  function Got(open: Open, k: Key): set<nat> {
    if k in open then open[k] else {}
  }

  /** One arrival on the abstract side: complete packets leave the map. */
  ghost function Receive(w: World, open: Open, a: Arrival): Open
    requires Of(w, a)
  {
    if w[a.key].Complete(Got(open, a.key) + {a.part}) then open - {a.key}
    else open[a.key := Got(open, a.key) + {a.part}]
  }

  /** Is there, or can there be, a slot for this packet? */
  predicate Room(open: Open, a: Arrival) {
    a.key in open || |open| < LC_FRAG_COUNT
  }

  lemma FindKeyAt(slots: seq<Slot>, open: Open, at: map<Key, nat>, w: World, k: Key)
    requires Represents(slots, open, at, w)
    ensures FindKey(slots, k) == if k in open then at[k] else LC_FRAG_COUNT
  {
    hide Holds;
    if k in open {
      assert InSlot(slots, open, at, w, k);
    }
  }

  lemma Insert(slots: seq<Slot>, open: Open, at: map<Key, nat>, w: World, i: nat, k: Key, slot: Slot, got: set<nat>)
    requires Represents(slots, open, at, w)
    requires i < LC_FRAG_COUNT && !slots[i].used && k !in open && k in w
    requires slot.used && KeyOf(slot) == k && Holds(slot, w[k], got) && !w[k].Complete(got)
    ensures Represents(slots[i := slot], open[k := got], at[k := i], w)
  {
    assert slot.Valid();
    hide Holds;
    forall k' | k' in open
      ensures InSlot(slots[i := slot], open[k := got], at[k := i], w, k')
    {
      assert InSlot(slots, open, at, w, k');
    }
  }

  lemma {:induction false} Remove(slots: seq<Slot>, open: Open, at: map<Key, nat>, w: World, k: Key, slot: Slot)
    requires Represents(slots, open, at, w)
    requires k in open && !slot.used && slot.Valid()
    ensures at[k] < LC_FRAG_COUNT
    ensures Represents(slots[at[k] := slot], open - {k}, at - {k}, w)
  {
    hide Holds;
    assert InSlot(slots, open, at, w, k);
    forall k' | k' in open && k' != k
      ensures InSlot(slots[at[k] := slot], open - {k}, at - {k}, w, k')
    {
      assert InSlot(slots, open, at, w, k');
    }
  }

  /** Distinct used slots hold distinct open packets, so a full table means 100 open packets. */
  lemma {:induction false} UsedSlotKeys(slots: seq<Slot>, open: Open, at: map<Key, nat>, w: World, n: nat)
    returns (keys: set<Key>)
    requires Represents(slots, open, at, w) && n <= LC_FRAG_COUNT
    requires forall i :: 0 <= i < n ==> slots[i].used
    ensures |keys| == n && keys <= open.Keys
    ensures forall k :: k in keys ==> k in at && at[k] < n
  {
    if n == 0 {
      keys := {};
    } else {
      keys := UsedSlotKeys(slots, open, at, w, n - 1);
      var k := KeyOf(slots[n - 1]);
      assert at[k] == n - 1 && k !in keys;
      keys := keys + {k};
    }
  }

  lemma {:induction false} RoomMeansFree(slots: seq<Slot>, open: Open, at: map<Key, nat>, w: World)
    requires Represents(slots, open, at, w)
    ensures |open| < LC_FRAG_COUNT ==> FindFree(slots) < LC_FRAG_COUNT
  {
    if FindFree(slots) == LC_FRAG_COUNT {
      var keys := UsedSlotKeys(slots, open, at, w, LC_FRAG_COUNT);
      SubsetSize(keys, open.Keys);
    }
  }

  // -------------------------------------------------------------- refinement

  lemma OpenedHoldsNothing(s: Slot, k: Key, localId: nat, sent: Sent)
    requires s.Valid() && sent.Valid()
    ensures Holds(OpenedSlot(s, k, localId), sent, {})
  {
    assert forall j: nat :: !Has(0, j);
  }

  lemma NothingIsNotAll(s: Sent)
    requires s.Valid()
    ensures !s.Complete({})
  {
    var none: set<nat> := {};
    assert 0 !in none;
  }

  lemma OneIsNotAll(s: Sent, i: nat)
    requires s.Valid()
    ensures !s.Complete({i})
  {
    var one: set<nat> := {i};
    assert 0 !in one || 1 !in one;
  }

  /** What copying a fragment into its slot achieves. */
  lemma {:induction false} FillFull(slot: Slot, w: World, a: Arrival, got: set<nat>)
    requires ValidWorld(w) && Of(w, a) && Holds(slot, w[a.key], got)
    ensures var s, got' := Filled(slot, Wire(w, a)), got + {a.part};
            && Holds(s, w[a.key], got') && s.used == slot.used && KeyOf(s) == KeyOf(slot)
            && (IsFull(s.part, w[a.key].Count()) <==> w[a.key].Complete(got'))
            && (w[a.key].Complete(got') ==> Delivery(s) == w[a.key].packet)
  {
    FillHolds(slot, w, a, got);
    ArrivalBytes(w, a);
    FullHolds(Filled(slot, Wire(w, a)), w[a.key], got + {a.part});
  }

  /** A fragment of a packet without slot, stored in the free slot i. */
  lemma {:induction false} StoreFirst(slots: seq<Slot>, open: Open, at: map<Key, nat>, w: World, a: Arrival, i: nat,
                                      localId: nat)
    requires Represents(slots, open, at, w) && ValidWorld(w) && Of(w, a)
    requires a.key !in open && i < LC_FRAG_COUNT && !slots[i].used
    ensures var s := Filled(OpenedSlot(slots[i], a.key, localId), Wire(w, a));
            && !IsFull(s.part, w[a.key].Count())
            && Represents(slots[i := s], open[a.key := {a.part}], at[a.key := i], w)
  {
    hide Holds, Wire, IsFull, Filled, InBounds;
    var o := OpenedSlot(slots[i], a.key, localId);
    OpenedHoldsNothing(slots[i], a.key, localId, w[a.key]);
    FillFull(o, w, a, {});
    assert {} + {a.part} == {a.part};
    OneIsNotAll(w[a.key], a.part);
    hide Represents;
    Insert(slots, open, at, w, i, a.key, Filled(o, Wire(w, a)), {a.part});
  }

  /** A fragment of a packet that has a slot. */
  lemma {:induction false} StoreNext(slots: seq<Slot>, open: Open, at: map<Key, nat>, w: World, a: Arrival)
    requires Represents(slots, open, at, w) && ValidWorld(w) && Of(w, a)
    requires a.key in open
    ensures at[a.key] < LC_FRAG_COUNT && slots[at[a.key]].Valid()
    ensures var i := at[a.key];
            var s := Filled(slots[i], Wire(w, a));
            var got := open[a.key] + {a.part};
            if IsFull(s.part, w[a.key].Count()) then
              && w[a.key].Complete(got) && Delivery(s) == w[a.key].packet
              && Represents(slots[i := s.(used := false)], open - {a.key}, at - {a.key}, w)
            else
              && !w[a.key].Complete(got)
              && Represents(slots[i := s], open[a.key := got], at, w)
  {
    hide Holds, Wire, IsFull, Filled, InBounds;
    var k, i := a.key, at[a.key];
    assert InSlot(slots, open, at, w, k);
    FillFull(slots[i], w, a, open[k]);
    hide Represents;
    var s, got := Filled(slots[i], Wire(w, a)), open[k] + {a.part};
    var free := s.(used := false);
    Remove(slots, open, at, w, k, free);
    if !w[k].Complete(got) {
      Insert(slots[i := free], open - {k}, at - {k}, w, i, k, s, got);
      assert slots[i := free][i := s] == slots[i := s];
      assert (open - {k})[k := got] == open[k := got];
      assert (at - {k})[k := i] == at;
    }
  }

  lemma {:induction false} RefineKnown(t: Table, open: Open, at: map<Key, nat>, w: World, a: Arrival)
    returns (at': map<Key, nat>)
    requires Represents(t.slots, open, at, w) && ValidWorld(w) && Of(w, a) && a.key in open
    ensures t.Valid()
    ensures var r, s := Process(t, Wire(w, a)), w[a.key];
            && Represents(r.table.slots, Receive(w, open, a), at', w)
            && r.delivered == if s.Complete(Got(open, a.key) + {a.part}) then Some(s.packet) else None
  {
    ArrivalBytes(w, a);
    FindKeyAt(t.slots, open, at, w, a.key);
    assert t.Valid();
    hide Represents, Wire, InBounds, Filled, Holds, IsFull, FindKey, FindFree, Oldest;
    StoreNext(t.slots, open, at, w, a);
    var s := Filled(t.slots[at[a.key]], Wire(w, a));
    at' := if IsFull(s.part, w[a.key].Count()) then at - {a.key} else at;
  }

  /** A fragment that opens slot i. */
  lemma {:induction false} ProcessOpens(t: Table, w: World, a: Arrival, i: nat)
    requires t.Valid() && ValidWorld(w) && Of(w, a)
    requires i < LC_FRAG_COUNT && Locate(t, a.key) == Some((i, Opened(t, i, a.key)))
    requires !IsFull(Filled(OpenedSlot(t.slots[i], a.key, t.localId), Wire(w, a)).part, w[a.key].Count())
    ensures Process(t, Wire(w, a))
         == Outcome(Table(t.slots[i := Filled(OpenedSlot(t.slots[i], a.key, t.localId), Wire(w, a))], t.localId + 1),
                    None)
  {
    ArrivalBytes(w, a);
    hide Wire, InBounds, Filled, IsFull, Locate, ValidWorld;
  }

  lemma {:induction false} RefineNew(t: Table, open: Open, at: map<Key, nat>, w: World, a: Arrival)
    returns (at': map<Key, nat>)
    requires Represents(t.slots, open, at, w) && ValidWorld(w) && Of(w, a) && a.key !in open
    requires FindFree(t.slots) < LC_FRAG_COUNT
    ensures t.Valid()
    ensures var r := Process(t, Wire(w, a));
            && Represents(r.table.slots, Receive(w, open, a), at', w)
            && !w[a.key].Complete(Got(open, a.key) + {a.part}) && r.delivered == None
  {
    hide Wire, InBounds, Filled, Holds, IsFull, Oldest, Process;
    FindKeyAt(t.slots, open, at, w, a.key);
    assert t.Valid();
    var i := FindFree(t.slots);
    hide Represents, FindKey, FindFree;
    StoreFirst(t.slots, open, at, w, a, i, t.localId);
    ProcessOpens(t, w, a, i);
    OneIsNotAll(w[a.key], a.part);
    assert {} + {a.part} == {a.part};
    at' := at[a.key := i];
  }

  /** A full table either ignores a new packet or gives it the slot of its oldest one. */
  lemma {:induction false} RefineFull(t: Table, open: Open, at: map<Key, nat>, w: World, a: Arrival)
    returns (open': Open, at': map<Key, nat>)
    requires Represents(t.slots, open, at, w) && ValidWorld(w) && Of(w, a) && a.key !in open
    requires FindFree(t.slots) == LC_FRAG_COUNT
    ensures t.Valid()
    ensures var r := Process(t, Wire(w, a));
            Represents(r.table.slots, open', at', w) && r.delivered == None
  {
    hide Wire, InBounds, Filled, Holds, IsFull, Oldest;
    ArrivalBytes(w, a);
    FindKeyAt(t.slots, open, at, w, a.key);
    assert t.Valid();
    OldestIndex(t, LC_FRAG_COUNT);
    hide FindKey, FindFree;
    var (i, age) := Oldest(t, LC_FRAG_COUNT);
    if age > LC_FRAG_COUNT {
      hide Process;
      open', at' := Evict(t, open, at, w, a, i);
    } else {
      open', at' := open, at;
    }
  }

  lemma {:induction false} Evict(t: Table, open: Open, at: map<Key, nat>, w: World, a: Arrival, i: nat)
    returns (open': Open, at': map<Key, nat>)
    requires Represents(t.slots, open, at, w) && ValidWorld(w) && Of(w, a) && a.key !in open
    requires t.Valid() && i < LC_FRAG_COUNT && t.slots[i].used && Locate(t, a.key) == Some((i, Opened(t, i, a.key)))
    ensures var r := Process(t, Wire(w, a));
            Represents(r.table.slots, open', at', w) && r.delivered == None
  {
    hide Wire, InBounds, Filled, Holds, IsFull, Process, Locate;
    var v, emptied := KeyOf(t.slots[i]), t.slots[i].(used := false);
    VictimOpen(t.slots, open, at, w, i);
    hide Represents;
    Remove(t.slots, open, at, w, v, emptied);
    StoreFirst(t.slots[i := emptied], open - {v}, at - {v}, w, a, i, t.localId);
    assert OpenedSlot(emptied, a.key, t.localId) == OpenedSlot(t.slots[i], a.key, t.localId);
    var s := Filled(OpenedSlot(emptied, a.key, t.localId), Wire(w, a));
    ProcessOpens(t, w, a, i);
    assert t.slots[i := emptied][i := s] == t.slots[i := s];
    open', at' := (open - {v})[a.key := {a.part}], (at - {v})[a.key := i];
  }

  /** One call of lan_client_process_frag: what the table represents afterwards, and what it delivers. */
  lemma {:induction false} ProcessRefines(t: Table, open: Open, at: map<Key, nat>, w: World, a: Arrival)
    returns (open': Open, at': map<Key, nat>)
    requires Represents(t.slots, open, at, w) && ValidWorld(w) && Of(w, a)
    ensures t.Valid()
    ensures var r, s := Process(t, Wire(w, a)), w[a.key];
            && Represents(r.table.slots, open', at', w)
            && (Room(open, a) ==>
                  && open' == Receive(w, open, a)
                  && r.delivered == if s.Complete(Got(open, a.key) + {a.part}) then Some(s.packet) else None)
            && (!Room(open, a) ==> r.delivered == None)
  {
    ArrivalBytes(w, a);
    RoomMeansFree(t.slots, open, at, w);
    hide Represents, Wire, InBounds, Process;
    open' := Receive(w, open, a);
    if a.key in open {
      at' := RefineKnown(t, open, at, w, a);
    } else if FindFree(t.slots) < LC_FRAG_COUNT {
      at' := RefineNew(t, open, at, w, a);
    } else {
      open', at' := RefineFull(t, open, at, w, a);
    }
  }

  lemma VictimOpen(slots: seq<Slot>, open: Open, at: map<Key, nat>, w: World, i: nat)
    requires Represents(slots, open, at, w) && i < LC_FRAG_COUNT && slots[i].used
    ensures KeyOf(slots[i]) in open && at[KeyOf(slots[i])] == i
  {
  }

  // --------------------------------------------------------------- whole runs

  ghost predicate AllOf(w: World, run: seq<Arrival>) {
    ValidWorld(w) && forall i :: 0 <= i < |run| ==> Of(w, run[i])
  }

  /** What the i-th arrival of a run does. */
  ghost function Arrive(w: World, run: seq<Arrival>, i: nat): (r: Outcome)
    requires AllOf(w, run) && i < |run|
    ensures r.table.Valid()
  {
    var before := if i == 0 then Init() else Arrive(w, run, i - 1).table;
    Process(before, Wire(w, run[i]))
  }

  /** The packets open after the first n arrivals, if there is always room. */
  ghost function OpenAfter(w: World, run: seq<Arrival>, n: nat): Open
    requires AllOf(w, run) && n <= |run|
  {
    if n == 0 then map[] else Receive(w, OpenAfter(w, run, n - 1), run[n - 1])
  }

  /** The parts of packet k among the first n arrivals. */
  function PartsOf(run: seq<Arrival>, k: Key, n: nat): set<nat>
    requires n <= |run|
  {
    if n == 0 then {}
    else PartsOf(run, k, n - 1) + (if run[n - 1].key == k then {run[n - 1].part} else {})
  }

  ghost function TableAfter(w: World, run: seq<Arrival>, n: nat): (t: Table)
    requires AllOf(w, run) && n <= |run|
    ensures t.Valid()
  {
    if n == 0 then Init() else Arrive(w, run, n - 1).table
  }

  lemma InitRepresents(w: World)
    ensures Represents(Init().slots, map[], map[], w)
  {
  }

  /** At most 100 packets are ever open during the first n arrivals. */
  ghost predicate Roomy(w: World, run: seq<Arrival>, n: nat)
    requires AllOf(w, run) && n <= |run|
  {
    forall i :: 0 <= i < n ==> Room(OpenAfter(w, run, i), run[i])
  }

  lemma RoomyPrefix(w: World, run: seq<Arrival>, m: nat, n: nat)
    requires AllOf(w, run) && m <= n <= |run| && Roomy(w, run, n)
    ensures Roomy(w, run, m)
  {
  }

  lemma {:induction false} RunStep(w: World, run: seq<Arrival>, i: nat, open: Open, at: map<Key, nat>)
    returns (open': Open, at': map<Key, nat>)
    requires AllOf(w, run) && i < |run|
    requires Represents(TableAfter(w, run, i).slots, open, at, w)
    ensures Represents(TableAfter(w, run, i + 1).slots, open', at', w)
    ensures Room(open, run[i]) ==> open' == Receive(w, open, run[i])
  {
    hide Represents, Process, Wire, ValidWorld, TableAfter, Arrive, Receive;
    TableStep(w, run, i);
    open', at' := ProcessRefines(TableAfter(w, run, i), open, at, w, run[i]);
  }

  /** The table always represents some set of open packets. */
  lemma {:induction false} RunRepresents(w: World, run: seq<Arrival>, n: nat) returns (open: Open, at: map<Key, nat>)
    requires AllOf(w, run) && n <= |run|
    ensures Represents(TableAfter(w, run, n).slots, open, at, w)
    ensures Roomy(w, run, n) ==> open == OpenAfter(w, run, n)
  {
    hide Represents, ValidWorld, Arrive, Receive, AllOf;
    if n == 0 {
      InitRepresents(w);
      open, at := map[], map[];
    } else {
      var open0, at0 := RunRepresents(w, run, n - 1);
      assert Roomy(w, run, n) ==> Roomy(w, run, n - 1) && Room(OpenAfter(w, run, n - 1), run[n - 1]);
      open, at := RunStep(w, run, n - 1, open0, at0);
      hide TableAfter;
      OpenStep(w, run, n - 1);
    }
  }

  lemma OpenStep(w: World, run: seq<Arrival>, i: nat)
    requires AllOf(w, run) && i < |run|
    ensures OpenAfter(w, run, i + 1) == Receive(w, OpenAfter(w, run, i), run[i])
  {
  }

  lemma TableStep(w: World, run: seq<Arrival>, i: nat)
    requires AllOf(w, run) && i < |run|
    ensures Arrive(w, run, i) == Process(TableAfter(w, run, i), Wire(w, run[i]))
    ensures TableAfter(w, run, i + 1) == Arrive(w, run, i).table
  {
  }

  lemma {:induction false} OpenWithinWorld(w: World, run: seq<Arrival>, n: nat)
    requires AllOf(w, run) && n <= |run|
    ensures OpenAfter(w, run, n).Keys <= w.Keys
  {
    if n > 0 {
      OpenWithinWorld(w, run, n - 1);
      OpenStep(w, run, n - 1);
    }
  }

  /** In particular, a run over at most 100 packets never runs out of slots. */
  lemma {:induction false} SmallWorldIsRoomy(w: World, run: seq<Arrival>, n: nat)
    requires AllOf(w, run) && n <= |run| && |w| <= LC_FRAG_COUNT
    ensures Roomy(w, run, n)
  {
    forall i | 0 <= i < n
      ensures Room(OpenAfter(w, run, i), run[i])
    {
      OpenWithinWorld(w, run, i);
      var open := OpenAfter(w, run, i);
      if run[i].key !in open {
        SubsetSize(open.Keys, w.Keys - {run[i].key});
      }
    }
  }

  /**
   Safety, with no bound on the number of packets: whatever arrives in whatever
   order, evicted, duplicated or late, a delivered packet is byte for byte one
   that was sent under the identifier of the fragment that completed it.
   */
  lemma {:induction false} NeverCorrupts(w: World, run: seq<Arrival>, i: nat)
    requires AllOf(w, run) && i < |run|
    ensures var r := Arrive(w, run, i).delivered; r.Some? ==> r.value == w[run[i].key].packet
  {
    hide Represents, Process, Wire, ValidWorld, TableAfter, Arrive;
    var open, at := RunRepresents(w, run, i);
    TableStep(w, run, i);
    var open', at' := ProcessRefines(TableAfter(w, run, i), open, at, w, run[i]);
  }

  lemma {:induction false} PartsGrow(run: seq<Arrival>, k: Key, m: nat, n: nat)
    requires m <= n <= |run|
    ensures PartsOf(run, k, m) <= PartsOf(run, k, n)
  {
    if m < n { PartsGrow(run, k, m, n - 1); }
  }

  /** Until a packet is complete, the map holds exactly the parts that have arrived. */
  lemma {:induction false} OpenHoldsParts(w: World, run: seq<Arrival>, k: Key, n: nat)
    requires AllOf(w, run) && n <= |run| && k in w && w[k].Valid() && !w[k].Complete(PartsOf(run, k, n))
    ensures Got(OpenAfter(w, run, n), k) == PartsOf(run, k, n)
  {
    if n > 0 {
      PartsGrow(run, k, n - 1, n);
      OpenHoldsParts(w, run, k, n - 1);
    }
  }

  /**
   As long as at most 100 packets are open, a packet is delivered by the arrival
   that completes it, and by no earlier one.
   */
  lemma {:induction false} DeliveredWhenComplete(w: World, run: seq<Arrival>, i: nat)
    requires AllOf(w, run) && i < |run| && Roomy(w, run, i + 1)
    requires !w[run[i].key].Complete(PartsOf(run, run[i].key, i))
    ensures var k := run[i].key;
            Arrive(w, run, i).delivered
            == if w[k].Complete(PartsOf(run, k, i + 1)) then Some(w[k].packet) else None
  {
    hide Represents, Process, Wire, ValidWorld, TableAfter, Arrive;
    var open, at := RunRepresents(w, run, i);
    assert Roomy(w, run, i) && Room(OpenAfter(w, run, i), run[i]);
    OpenHoldsParts(w, run, run[i].key, i);
    TableStep(w, run, i);
    var open', at' := ProcessRefines(TableAfter(w, run, i), open, at, w, run[i]);
  }

  /**
   Exactly once: as long as at most 100 packets are open, a packet whose parts all
   arrive, with no fragment after completion, is delivered by exactly one arrival.
   */
  lemma {:induction false} DeliveredExactlyOnce(w: World, run: seq<Arrival>, k: Key) returns (i: nat)
    requires AllOf(w, run) && Roomy(w, run, |run|) && k in w
    requires w[k].Complete(PartsOf(run, k, |run|))
    requires forall j :: 0 <= j < |run| && run[j].key == k ==> !w[k].Complete(PartsOf(run, k, j))
    ensures i < |run| && run[i].key == k && Arrive(w, run, i).delivered == Some(w[k].packet)
    ensures forall j :: 0 <= j < |run| && run[j].key == k && j != i ==> Arrive(w, run, j).delivered == None
  {
    i := FirstComplete(w, run, k, |run|);
    hide Arrive, ValidWorld, PartsOf, Sent.Complete, Roomy;
    RoomyPrefix(w, run, i + 1, |run|);
    DeliveredWhenComplete(w, run, i);
    forall j | 0 <= j < |run| && run[j].key == k && j != i
      ensures Arrive(w, run, j).delivered == None
    {
      NotDeliveredAgain(w, run, k, i, j);
    }
  }

  lemma {:induction false} NotDeliveredAgain(w: World, run: seq<Arrival>, k: Key, i: nat, j: nat)
    requires AllOf(w, run) && Roomy(w, run, |run|) && k in w && i < |run| && j < |run|
    requires !w[k].Complete(PartsOf(run, k, i)) && w[k].Complete(PartsOf(run, k, i + 1))
    requires run[j].key == k && j != i && !w[k].Complete(PartsOf(run, k, j))
    ensures Arrive(w, run, j).delivered == None
  {
    hide Arrive, ValidWorld, PartsOf, Roomy;
    RoomyPrefix(w, run, j + 1, |run|);
    DeliveredWhenComplete(w, run, j);
    if j < i {
      PartsGrow(run, k, j + 1, i);
    } else {
      PartsGrow(run, k, i + 1, j);
    }
  }

  lemma {:induction false} FirstComplete(w: World, run: seq<Arrival>, k: Key, n: nat) returns (i: nat)
    requires AllOf(w, run) && n <= |run| && k in w && w[k].Complete(PartsOf(run, k, n))
    ensures i < n && run[i].key == k
    ensures !w[k].Complete(PartsOf(run, k, i)) && w[k].Complete(PartsOf(run, k, i + 1))
  {
    NothingIsNotAll(w[k]);
    if n == 0 {
      assert false;
    } else if w[k].Complete(PartsOf(run, k, n - 1)) {
      i := FirstComplete(w, run, k, n - 1);
    } else {
      i := n - 1;
    }
  }

  // ------------------------------------------------------------- both halves

  /** What the sender puts on the wire is what the receiver's model is given. */
  lemma SentIsReceived(w: World, k: Key, i: nat)
    requires k in w && w[k].Valid() && i < w[k].Count()
    ensures Datagrams(w[k].packet, w[k].pmtu, k.id)[i] == [LAN_CLIENT_TYPE_IPV4_FRAG] + Wire(w, Arrival(k, i))
  {
    CutAt(w[k], k.id, w[k].Count(), i);
  }

  lemma {:induction false} CutAt(s: Sent, id: u16, n: nat, i: nat)
    requires s.Valid() && i < n <= s.Count()
    ensures s.pmtu < |s.packet| && i * s.pmtu < |s.packet| && s.Count() <= 3
    ensures Cut(s.packet, s.pmtu, id, n)[i] == [LAN_CLIENT_TYPE_IPV4_FRAG] + Part(s.packet, s.pmtu, id, i)
  {
    PartBytes(s, id, i);
    hide Part;
    if i < n - 1 {
      CutAt(s, id, n - 1, i);
    }
  }
}
