/**
 Fragmentation of IPv4 packets over the relay server (src/lan-client.c): the
 sender's cutting loop, the fragment header on the wire, and the receiver's table
 of partly received packets.
 */
module Fragments {
  import opened Bytes

  const ETHER_MTU := 1500
  const MIN_FRAG_PAYLOAD_LEN := 500
  const LC_FRAG_COUNT := 100
  const LC_FRAG_HEADER_LEN := 16
  const LAN_CLIENT_TYPE_IPV4 := 0x01
  const LAN_CLIENT_TYPE_IPV4_FRAG := 0x03
  const IPV4_OFF_SRC := 12
  const IPV4_OFF_DST := 16

  // ----------------------------------------------------------------- the wire

  /** struct lan_client_fragment_header. */
  datatype Header = Header(src: Ip, dst: Ip, id: u16, part: byte, totalPart: byte, len: u16, pmtu: u16)

  function Encode(h: Header): (s: seq<byte>)
    ensures |s| == LC_FRAG_HEADER_LEN
  {
    h.src + h.dst + Net16(h.id) + [h.part, h.totalPart] + Net16(h.len) + Net16(h.pmtu)
  }

  function Decode(s: seq<byte>): Header
    requires |s| >= LC_FRAG_HEADER_LEN
  {
    Header(s[0..4], s[4..8], Read16(s, 8), s[10], s[11], Read16(s, 12), Read16(s, 14))
  }

  lemma DecodeEncode(h: Header, payload: seq<byte>)
    ensures Decode(Encode(h) + payload) == h
    ensures (Encode(h) + payload)[LC_FRAG_HEADER_LEN..] == payload
  {
    var s := Encode(h) + payload;
    assert s[0..4] == h.src && s[4..8] == h.dst;
    assert s[8..10] == Net16(h.id) && s[12..14] == Net16(h.len) && s[14..16] == Net16(h.pmtu);
    assert s[8] == s[8..10][0] && s[9] == s[8..10][1];
    assert s[12] == s[12..14][0] && s[13] == s[12..14][1];
    assert s[14] == s[14..16][0] && s[15] == s[14..16][1];
  }

  // --------------------------------------------------------------- the sender

  /** Number of parts: len / pmtu, rounded up. */
  function PartCount(len: nat, pmtu: nat): nat
    requires pmtu > 0
  {
    if pmtu * (len / pmtu) < len then len / pmtu + 1 else len / pmtu
  }

  function PartLen(len: nat, pmtu: nat, i: nat): nat
    requires i * pmtu <= len
  {
    if pmtu < len - i * pmtu then pmtu else len - i * pmtu
  }

  /** The header and payload of part i of a packet. */
  function PartHeader(packet: seq<byte>, pmtu: nat, id: u16, i: nat): Header
    requires 20 <= |packet| < 0x1_0000 && 0 < pmtu < 0x1_0000
    requires i * pmtu < |packet| && PartCount(|packet|, pmtu) < 256 && i < 256
  {
    Header(packet[IPV4_OFF_SRC..IPV4_OFF_SRC + 4], packet[IPV4_OFF_DST..IPV4_OFF_DST + 4], id,
           i, PartCount(|packet|, pmtu), PartLen(|packet|, pmtu, i), pmtu)
  }

  function Part(packet: seq<byte>, pmtu: nat, id: u16, i: nat): seq<byte>
    requires 20 <= |packet| < 0x1_0000 && 0 < pmtu < 0x1_0000
    requires i * pmtu < |packet| && PartCount(|packet|, pmtu) < 256 && i < 256
  {
    Encode(PartHeader(packet, pmtu, id, i)) + packet[i * pmtu..i * pmtu + PartLen(|packet|, pmtu, i)]
  }

  /** Part i exists exactly for i below the count. */
  lemma PartsCover(len: nat, pmtu: nat, i: nat)
    requires pmtu > 0
    ensures i < PartCount(len, pmtu) <==> i * pmtu < len
  {
    var n := PartCount(len, pmtu);
    var q, r := len / pmtu, len % pmtu;
    assert len == q * pmtu + r;
    assert pmtu * q == q * pmtu;
    if i < n {
      assert i <= q && (i == q ==> r > 0);
      MulLe(i, q, pmtu);
      if i < q { MulLe(i + 1, q, pmtu); }
    } else {
      assert i >= q && (r > 0 ==> i >= q + 1);
      MulLe(q, i, pmtu);
      if r > 0 { MulLe(q + 1, i, pmtu); }
    }
  }

  lemma MulLe(a: nat, b: nat, c: nat)
    requires a <= b
    ensures a * c <= b * c
  {
  }

  /** What lan_client_send can be given: a 16-bit length, and the pmtu lan_client_init accepts. */
  predicate Cuttable(packet: seq<byte>, pmtu: nat) {
    |packet| < 0x1_0000 && pmtu >= MIN_FRAG_PAYLOAD_LEN
  }

  /** The packets that also fit the receiver's buffer. */
  predicate Sendable(packet: seq<byte>, pmtu: nat) {
    20 <= |packet| <= ETHER_MTU && pmtu >= MIN_FRAG_PAYLOAD_LEN
  }

  lemma FewParts(len: nat, pmtu: nat)
    requires len < 0x1_0000 && pmtu >= MIN_FRAG_PAYLOAD_LEN
    ensures PartCount(len, pmtu) <= 132
    ensures len <= ETHER_MTU ==> PartCount(len, pmtu) <= 3
  {
    MulLe(MIN_FRAG_PAYLOAD_LEN, pmtu, 132);
    PartsCover(len, pmtu, 132);
    PartsCover(len, pmtu, 3);
  }

  /** All datagrams of one packet: itself if it fits or no pmtu is set, its parts otherwise. */
  function Datagrams(packet: seq<byte>, pmtu: nat, id: u16): seq<seq<byte>>
    requires pmtu == 0 || Cuttable(packet, pmtu)
  {
    if pmtu > 0 && PartCount(|packet|, pmtu) > 1 then Cut(packet, pmtu, id, PartCount(|packet|, pmtu))
    else [[LAN_CLIENT_TYPE_IPV4] + packet]
  }

  /** The first n fragment datagrams. */
  function Cut(packet: seq<byte>, pmtu: nat, id: u16, n: nat): (r: seq<seq<byte>>)
    requires Cuttable(packet, pmtu) && 1 < PartCount(|packet|, pmtu) && n <= PartCount(|packet|, pmtu)
    ensures |r| == n
  {
    if n == 0 then [] else
    CuttableParts(packet, pmtu);
    PartsCover(|packet|, pmtu, n - 1);
    Cut(packet, pmtu, id, n - 1) + [[LAN_CLIENT_TYPE_IPV4_FRAG] + Part(packet, pmtu, id, n - 1)]
  }

  lemma CuttableParts(packet: seq<byte>, pmtu: nat)
    requires Cuttable(packet, pmtu)
    ensures PartCount(|packet|, pmtu) <= 132
    ensures 1 < PartCount(|packet|, pmtu) ==> pmtu < |packet|
  {
    FewParts(|packet|, pmtu);
    PartsCover(|packet|, pmtu, 1);
  }

  /** Where the cutting loop stands before part i. */
  function PartStart(len: nat, pmtu: nat, i: nat): nat
    requires pmtu > 0
  {
    if i < PartCount(len, pmtu) then i * pmtu else len
  }

  /** The part of the packet that part i carries, and where the next one starts. */
  lemma PartAt(packet: seq<byte>, pmtu: nat, i: nat)
    requires Cuttable(packet, pmtu) && i < PartCount(|packet|, pmtu)
    ensures var pos := PartStart(|packet|, pmtu, i);
            && pos == i * pmtu < |packet|
            && PartStart(|packet|, pmtu, i + 1) == pos + PartLen(|packet|, pmtu, i)
            && PartStart(|packet|, pmtu, i + 1) == pos + if pmtu < |packet| - pos then pmtu else |packet| - pos
  {
    PartsCover(|packet|, pmtu, i);
    PartsCover(|packet|, pmtu, i + 1);
    hide PartCount;
    assert (i + 1) * pmtu == i * pmtu + pmtu;
  }

  lemma PartsEnd(packet: seq<byte>, pmtu: nat)
    requires Cuttable(packet, pmtu)
    ensures PartStart(|packet|, pmtu, PartCount(|packet|, pmtu)) == |packet|
  {
  }

  /** One iteration of the cutting loop. */
  lemma CutStep(packet: seq<byte>, pmtu: nat, id: u16, i: nat)
    requires Cuttable(packet, pmtu) && 1 < PartCount(|packet|, pmtu) && i < PartCount(|packet|, pmtu)
    ensures pmtu < |packet| && PartCount(|packet|, pmtu) <= 132
    ensures var pos, next := PartStart(|packet|, pmtu, i), PartStart(|packet|, pmtu, i + 1);
            && pos < next <= |packet|
            && var header := Header(packet[IPV4_OFF_SRC..IPV4_OFF_SRC + 4], packet[IPV4_OFF_DST..IPV4_OFF_DST + 4], id,
                                    i, PartCount(|packet|, pmtu), next - pos, pmtu);
               Cut(packet, pmtu, id, i + 1) ==
               Cut(packet, pmtu, id, i) + [[LAN_CLIENT_TYPE_IPV4_FRAG] + (Encode(header) + packet[pos..next])]
  {
    CuttableParts(packet, pmtu);
    PartAt(packet, pmtu, i);
    hide PartCount, PartStart, Encode, PartLen;
  }

  /** The payloads of the first n fragment datagrams, joined. */
  function Payloads(packet: seq<byte>, pmtu: nat, id: u16, n: nat): seq<byte>
    requires Cuttable(packet, pmtu) && 1 < PartCount(|packet|, pmtu) && n <= PartCount(|packet|, pmtu)
  {
    if n == 0 then [] else
    var d := Cut(packet, pmtu, id, n)[n - 1];
    Payloads(packet, pmtu, id, n - 1) + if |d| > LC_FRAG_HEADER_LEN then d[1 + LC_FRAG_HEADER_LEN..] else []
  }

  /** The sender cuts without loss or overlap: the payloads of all fragments, joined, are the packet. */
  lemma CutIsWhole(packet: seq<byte>, pmtu: nat, id: u16)
    requires Cuttable(packet, pmtu) && 1 < PartCount(|packet|, pmtu)
    ensures Payloads(packet, pmtu, id, PartCount(|packet|, pmtu)) == packet
  {
    PayloadsPrefix(packet, pmtu, id, PartCount(|packet|, pmtu));
  }

  lemma {:induction false} PayloadsPrefix(packet: seq<byte>, pmtu: nat, id: u16, n: nat)
    requires Cuttable(packet, pmtu) && 1 < PartCount(|packet|, pmtu) && n <= PartCount(|packet|, pmtu)
    ensures PartStart(|packet|, pmtu, n) <= |packet|
    ensures Payloads(packet, pmtu, id, n) == packet[..PartStart(|packet|, pmtu, n)]
  {
    if n > 0 {
      PayloadsPrefix(packet, pmtu, id, n - 1);
      CutStep(packet, pmtu, id, n - 1);
      hide PartCount, PartStart, Cut, Encode;
      var pos, next := PartStart(|packet|, pmtu, n - 1), PartStart(|packet|, pmtu, n);
      var d := Cut(packet, pmtu, id, n)[n - 1];
      assert d[1 + LC_FRAG_HEADER_LEN..] == packet[pos..next];
    }
  }

  lemma SendableParts(packet: seq<byte>, pmtu: nat)
    requires Sendable(packet, pmtu)
    ensures PartCount(|packet|, pmtu) <= 3
    ensures 1 < PartCount(|packet|, pmtu) ==> pmtu < |packet|
  {
    FewParts(|packet|, pmtu);
    PartsCover(|packet|, pmtu, 1);
  }

  // ------------------------------------------------------------- the receiver

  /** One bit of the part bitmap; 1 << k is cut to eight bits when it is stored. */
  function Bit(k: nat): bv8 {
    match k
    case 0 => 0x01 case 1 => 0x02 case 2 => 0x04 case 3 => 0x08
    case 4 => 0x10 case 5 => 0x20 case 6 => 0x40 case 7 => 0x80
    case _ => 0
  }

  /** ~(~0 << n), for n up to eight. */
  function Mask(n: nat): bv8
    requires n <= 8
  {
    match n
    case 0 => 0x00 case 1 => 0x01 case 2 => 0x03 case 3 => 0x07
    case 4 => 0x0f case 5 => 0x1f case 6 => 0x3f case 7 => 0x7f
    case _ => 0xff
  }

  /** The completion test: a mask wider than the bitmap never matches. */
  predicate IsFull(part: bv8, n: nat) {
    n <= 8 && part == Mask(n)
  }

  predicate Has(part: bv8, k: nat) {
    part & Bit(k) != 0
  }

  /** struct lan_client_fragment. */
  datatype Slot = Slot(used: bool, src: Ip, id: u16, localId: u16, part: bv8, totalLen: u16, buffer: seq<byte>) {
    predicate Valid() {
      |buffer| == ETHER_MTU && totalLen <= ETHER_MTU
    }
  }

  datatype Key = Key(src: Ip, id: u16)

  datatype Table = Table(slots: seq<Slot>, localId: nat) {
    predicate Valid() {
      |slots| == LC_FRAG_COUNT && forall i :: 0 <= i < |slots| ==> slots[i].Valid()
    }
  }

  predicate Matches(s: Slot, k: Key) {
    s.used && s.id == k.id && s.src == k.src
  }

  /** The first search loop: index of the slot of a packet, or the table size. */
  function FindKey(slots: seq<Slot>, k: Key): (i: nat)
    ensures i <= |slots|
    ensures i < |slots| ==> Matches(slots[i], k)
    ensures forall j :: 0 <= j < i ==> !Matches(slots[j], k)
  {
    if slots == [] || Matches(slots[0], k) then 0 else 1 + FindKey(slots[1..], k)
  }

  function FindFree(slots: seq<Slot>): (i: nat)
    ensures i <= |slots|
    ensures i < |slots| ==> !slots[i].used
    ensures forall j :: 0 <= j < i ==> slots[j].used
  {
    if slots == [] || !slots[0].used then 0 else 1 + FindFree(slots[1..])
  }

  function Abs(x: int): nat {
    if x < 0 then -x else x
  }

  function Age(s: Slot, localId: nat): nat {
    Abs(s.localId - localId)
  }

  /** The eviction loop over the first n slots: the first slot of the greatest age, and that age. */
  function Oldest(t: Table, n: nat): (nat, nat)
    requires n <= |t.slots|
  {
    if n == 0 then (0, 0) else
    var (i, age) := Oldest(t, n - 1);
    if t.slots[n - 1].used && Age(t.slots[n - 1], t.localId) > age then (n - 1, Age(t.slots[n - 1], t.localId))
    else (i, age)
  }

  lemma {:induction false} OldestIndex(t: Table, n: nat)
    requires n <= |t.slots|
    ensures Oldest(t, n).1 > 0 ==> Oldest(t, n).0 < n && t.slots[Oldest(t, n).0].used
    ensures forall j :: 0 <= j < n && t.slots[j].used ==> Age(t.slots[j], t.localId) <= Oldest(t, n).1
  {
    if n > 0 { OldestIndex(t, n - 1); }
  }

  /** A slot opened for a new packet; buffer and total length keep their old contents. */
  function OpenedSlot(s: Slot, k: Key, localId: nat): Slot {
    s.(used := true, id := k.id, src := k.src, localId := localId % 0x1_0000, part := 0)
  }

  function Opened(t: Table, i: nat, k: Key): Table
    requires i < |t.slots|
  {
    Table(t.slots[i := OpenedSlot(t.slots[i], k, t.localId)], t.localId + 1)
  }

  /** The three searches: the slot to use, or None when the fragment is ignored. */
  function Locate(t: Table, k: Key): (r: Option<(nat, Table)>)
    requires t.Valid()
    ensures r.Some? ==> r.value.0 < LC_FRAG_COUNT && r.value.1.Valid()
  {
    var i, free := FindKey(t.slots, k), FindFree(t.slots);
    OldestIndex(t, LC_FRAG_COUNT);
    var (oldest, age) := Oldest(t, LC_FRAG_COUNT);
    if i < LC_FRAG_COUNT then Some((i, t))
    else if free < LC_FRAG_COUNT then Some((free, Opened(t, free, k)))
    else if age > LC_FRAG_COUNT then Some((oldest, Opened(t, oldest, k)))
    else None
  }

  /** Where a part belongs in the packet. */
  function Offset(h: Header): nat {
    h.pmtu as nat * h.part as nat
  }

  /** Fragments whose memcpy and shifts stay in bounds. */
  predicate InBounds(packet: seq<byte>) {
    && |packet| >= LC_FRAG_HEADER_LEN
    && var h := Decode(packet);
       && |packet| >= LC_FRAG_HEADER_LEN + h.len
       && h.part < 32 && h.totalPart < 32
       && Offset(h) + h.len <= ETHER_MTU
  }

  /** A slot with the part of the fragment copied in. */
  function Filled(s: Slot, packet: seq<byte>): (r: Slot)
    requires s.Valid() && InBounds(packet)
    ensures r.Valid()
  {
    var h := Decode(packet);
    s.(part := s.part | Bit(h.part),
       buffer := Put(s.buffer, Offset(h), packet[LC_FRAG_HEADER_LEN..LC_FRAG_HEADER_LEN + h.len]),
       totalLen := if h.part == h.totalPart - 1 then Offset(h) + h.len else s.totalLen)
  }

  datatype Outcome = Outcome(table: Table, delivered: Option<seq<byte>>)

  function Delivery(s: Slot): seq<byte>
    requires s.Valid()
  {
    s.buffer[..s.totalLen]
  }

  /** lan_client_process_frag. */
  function Process(t: Table, packet: seq<byte>): (r: Outcome)
    requires t.Valid() && InBounds(packet)
    ensures r.table.Valid()
  {
    var h := Decode(packet);
    match Locate(t, Key(h.src, h.id))
    case None => Outcome(t, None)
    case Some((i, t')) =>
      var s := Filled(t'.slots[i], packet);
      if IsFull(s.part, h.totalPart) then
        Outcome(t'.(slots := t'.slots[i := s.(used := false)]), Some(Delivery(s)))
      else
        Outcome(t'.(slots := t'.slots[i := s]), None)
  }

  /** memset to zero. */
  function Zeros(n: nat): (s: seq<byte>)
    ensures |s| == n
  {
    seq(n, _ => 0)
  }

  function EmptySlot(): Slot {
    Slot(false, [0, 0, 0, 0], 0, 0, 0, 0, Zeros(ETHER_MTU))
  }

  /** The zeroed table of lan_client_init. */
  function Init(): (t: Table)
    ensures t.Valid() && t.localId == 0 && forall i :: 0 <= i < LC_FRAG_COUNT ==> t.slots[i] == EmptySlot()
  {
    Table(seq(LC_FRAG_COUNT, _ => EmptySlot()), 0)
  }
}
