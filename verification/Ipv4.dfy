/**
 The IPv4 header as section 3.1 of RFC 791 lays it out, and bit masks on
 addresses: the reference the address arithmetic of the relay is held against.
 */
module Ipv4 {
  import opened Bytes

  /** The fields of a header in their order; lengths are in words for `ihl`, in bytes for `totalLen`. */
  datatype Header = Header(
    version: byte,
    ihl: byte,
    tos: byte,
    totalLen: u16,
    id: u16,
    flagsOffset: u16,
    ttl: byte,
    protocol: byte,
    checksum: u16,
    src: Ip,
    dst: Ip,
    options: seq<byte>
  ) {
    predicate Valid(payload: seq<byte>) {
      && version < 16 && 5 <= ihl < 16
      && |options| == 4 * (ihl as int - 5)
      && totalLen == 4 * ihl as int + |payload|
    }

    /** Not a later fragment, and, for `Whole`, not a first one either. */
    predicate First() {
      flagsOffset % 0x2000 == 0
    }

    predicate Whole() {
      flagsOffset % 0x4000 == 0
    }
  }

  /** The first ten bytes. */
  function Front(h: Header): (r: seq<byte>)
    requires h.version < 16 && h.ihl < 16
    ensures |r| == 10
  {
    [h.version * 16 + h.ihl, h.tos] + Net16(h.totalLen) + Net16(h.id) + Net16(h.flagsOffset) + [h.ttl, h.protocol]
  }

  function Packet(h: Header, payload: seq<byte>): seq<byte>
    requires h.Valid(payload)
  {
    Front(h) + Net16(h.checksum) + h.src + h.dst + h.options + payload
  }

  lemma PacketBytes(h: Header, payload: seq<byte>)
    requires h.Valid(payload)
    ensures var p := Packet(h, payload);
            && |p| == h.totalLen >= 20 && p[0] % 16 == h.ihl && p[0] / 16 == h.version
            && Read16(p, 2) == h.totalLen && Read16(p, 6) == h.flagsOffset && p[9] == h.protocol
            && p[12..16] == h.src && p[16..20] == h.dst && p[4 * h.ihl as int..] == payload
  {
    var p, front := Packet(h, payload), Front(h);
    assert p[2] == front[2] == h.totalLen / 0x100 && p[3] == front[3] == h.totalLen % 0x100;
    assert p[6] == front[6] == h.flagsOffset / 0x100 && p[7] == front[7] == h.flagsOffset % 0x100;
    assert p[0] == front[0] && p[9] == front[9] == h.protocol;
    assert p[12..16] == h.src && p[16..20] == h.dst;
    assert p[4 * h.ihl as int..] == payload;
  }

  lemma NetOfRead(s: seq<byte>, i: nat)
    requires i + 1 < |s|
    ensures Net16(Read16(s, i)) == s[i..i + 2]
  {
  }

  /** A packet that differs in the addresses, the checksum and the payload only. */
  lemma {:induction false} Readdressed(h: Header, payload: seq<byte>, q: seq<byte>, src: Ip, dst: Ip)
    requires h.Valid(payload) && |q| == h.totalLen
    requires var p := Packet(h, payload);
             && |p| == |q| && (forall i :: 0 <= i < 10 || 20 <= i < 4 * h.ihl as int ==> q[i] == p[i])
             && q[12..20] == src + dst
    ensures var h' := h.(src := src, dst := dst, checksum := Read16(q, 10));
            h'.Valid(q[4 * h.ihl as int..]) && q == Packet(h', q[4 * h.ihl as int..])
  {
    hide Front, Net16, Read16;
    var p, n := Packet(h, payload), 4 * h.ihl as int;
    NetOfRead(q, 10);
    FrontKept(h, src, dst, Read16(q, 10));
    assert |Net16(h.checksum)| == 2 by { NetLength(h.checksum); }
    assert q[..10] == p[..10] == Front(h);
    assert q[20..n] == p[20..n] == h.options;
    assert q == q[..10] + q[10..12] + q[12..20] + q[20..n] + q[n..];
  }

  lemma FrontKept(h: Header, src: Ip, dst: Ip, checksum: u16)
    requires h.version < 16 && h.ihl < 16
    ensures Front(h.(src := src, dst := dst, checksum := checksum)) == Front(h)
  {
  }

  lemma NetLength(v: u16)
    ensures |Net16(v)| == 2
  {
  }

  // ------------------------------------------------------------------- masks

  function Bits(b: byte): bv8 {
    b as bv8
  }

  function FromBits(b: bv8): byte {
    b as int
  }

  lemma BackAndBits(x: bv8)
    ensures Bits(FromBits(x)) == x
  {
  }

  lemma NextBits(x: bv8)
    requires x < 0xff
    ensures FromBits(x + 1) == FromBits(x) + 1
  {
  }

  /** The bits of a number, found by counting up to it. */
  function Counted(x: byte): (r: bv8)
    ensures FromBits(r) == x
  {
    if x == 0 then 0 else NextBits(Counted(x - 1)); Counted(x - 1) + 1
  }

  lemma {:induction false} BitsAndBack(x: byte)
    ensures FromBits(Bits(x)) == x
  {
    hide Bits, FromBits, Counted;
    BackAndBits(Counted(x));
  }

  /** The address is in the subnet of `own` under the mask. */
  predicate InSubnet(ip: Ip, own: Ip, mask: Ip) {
    forall i :: 0 <= i < 4 ==> Bits(ip[i]) & Bits(mask[i]) == Bits(own[i]) & Bits(mask[i])
  }

  /** Its last address: every host bit is set. */
  predicate IsLast(ip: Ip, own: Ip, mask: Ip) {
    InSubnet(ip, own, mask) && forall i :: 0 <= i < 4 ==> Bits(ip[i]) | Bits(mask[i]) == 0xff
  }

  /** The network bits are those of a, the host bits are all set. */
  predicate HostBitsSet(x: bv8, a: bv8, m: bv8) {
    x & m == a & m && x | m == 0xff
  }

  /** a | ~m. */
  function SetHostBits(a: bv8, m: bv8): bv8 {
    a | !m
  }

  lemma SetHostBitsIff(x: bv8, a: bv8, m: bv8)
    ensures x == SetHostBits(a, m) <==> HostBitsSet(x, a, m)
  {
  }

  lemma LastByBytes(ip: Ip, own: Ip, mask: Ip)
    ensures IsLast(ip, own, mask) <==>
            forall i :: 0 <= i < 4 ==> HostBitsSet(Bits(ip[i]), Bits(own[i]), Bits(mask[i]))
  {
    hide Bits;
  }
}
