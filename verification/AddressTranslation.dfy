/**
 Address translation between Wi-Fi and the overlay (src/lan-play.c): the in-place
 rewrite of addresses and checksums, and what it leaves of a packet.
 */
module AddressTranslation {
  import opened Bytes
  import opened InternetChecksum
  import opened RelayChecksum

  const ETHER_HEADER_LEN := 14
  const ETHER_OFF_SRC := 6
  const ETHER_OFF_TYPE := 12
  const ETHER_TYPE_IPV4 := 0x0800
  const ETHER_MTU := 1500
  const IPV4_HEADER_LEN := 20
  const IPV4_OFF_TOTAL_LEN := 2
  const IPV4_OFF_FLAGS_FRAG_OFFSET := 6
  const IPV4_OFF_PROTOCOL := 9
  const IPV4_OFF_CHECKSUM := 10
  const IPV4_OFF_DST := 16
  const IPV4_PROTOCOL_ICMP := 1
  const UDP_OFF_LENGTH := 4
  const UDP_OFF_CHECKSUM := 6
  const BROADCAST_MAC: Mac := [0xff, 0xff, 0xff, 0xff, 0xff, 0xff]

  // ---------------------------------------------------------------- packets

  function HeaderLen(p: seq<byte>): nat
    requires |p| > 0
  {
    p[0] % 16 * 4
  }

  function Src(p: seq<byte>): Ip
    requires |p| >= IPV4_HEADER_LEN
  {
    p[IPV4_OFF_SRC..IPV4_OFF_SRC + 4]
  }

  function Dst(p: seq<byte>): Ip
    requires |p| >= IPV4_HEADER_LEN
  {
    p[IPV4_OFF_DST..IPV4_OFF_DST + 4]
  }

  /** The length checks of rewrite_ipv4_addresses. */
  predicate CanRewrite(p: seq<byte>) {
    && |p| >= IPV4_HEADER_LEN
    && IPV4_HEADER_LEN <= HeaderLen(p) <= |p|
    && HeaderLen(p) <= Read16(p, IPV4_OFF_TOTAL_LEN) <= |p|
  }

  /** The packets whose UDP checksum is rewritten. */
  predicate HasUdp(p: seq<byte>)
    requires CanRewrite(p)
  {
    p[IPV4_OFF_PROTOCOL] == IPV4_PROTOCOL_UDP && Read16(p, IPV4_OFF_TOTAL_LEN) >= HeaderLen(p) + 8
  }

  function WithAddresses(p: seq<byte>, src: Ip, dst: Ip): (r: seq<byte>)
    requires |p| >= IPV4_HEADER_LEN
    ensures |r| == |p|
  {
    Put(Put(Put(p, IPV4_OFF_SRC, src), IPV4_OFF_DST, dst), IPV4_OFF_CHECKSUM, Net16(0))
  }

  function WithHeaderChecksum(p: seq<byte>, headerLen: nat): (r: seq<byte>)
    requires IPV4_HEADER_LEN <= headerLen <= |p|
    ensures |r| == |p|
  {
    Put(p, IPV4_OFF_CHECKSUM, Net16(Inverted(InternetSum(p[..headerLen]))))
  }

  function WithUdpChecksum(p: seq<byte>, headerLen: nat, totalLen: nat): (r: seq<byte>)
    requires IPV4_HEADER_LEN <= headerLen && headerLen + 8 <= totalLen <= |p| && totalLen < 0x1_0000
    ensures |r| == |p|
  {
    var zeroed := Put(p, headerLen + UDP_OFF_CHECKSUM, Net16(0));
    Put(zeroed, headerLen + UDP_OFF_CHECKSUM, Net16(UdpChecksumOf(UdpCovered(zeroed, headerLen, totalLen))))
  }

  /** What rewrite_ipv4_addresses leaves in the buffer when it succeeds. */
  function Rewritten(p: seq<byte>, src: Ip, dst: Ip): (r: seq<byte>)
    requires CanRewrite(p)
    ensures |r| == |p|
  {
    var q := WithHeaderChecksum(WithAddresses(p, src, dst), HeaderLen(p));
    if HasUdp(p) then WithUdpChecksum(q, HeaderLen(p), Read16(p, IPV4_OFF_TOTAL_LEN)) else q
  }

  /** WRITE_NET16 into a buffer. */
  method Store16(a: array<byte>, off: nat, v: u16)
    requires off + 2 <= a.Length
    modifies a
    ensures a[..] == Put(old(a[..]), off, Net16(v))
  {
    a[off] := v / 0x100;
    a[off + 1] := v % 0x100;
    assert a[..] == Put(old(a[..]), off, Net16(v));
  }

  /** CPY_IPV4 into a buffer. */
  method StoreIp(a: array<byte>, off: nat, ip: Ip)
    requires off + 4 <= a.Length
    modifies a
    ensures a[..] == Put(old(a[..]), off, ip)
  {
    a[off], a[off + 1], a[off + 2], a[off + 3] := ip[0], ip[1], ip[2], ip[3];
    assert a[..] == Put(old(a[..]), off, ip);
  }

  /** rewrite_ipv4_addresses, in place. */
  method RewriteAddresses(a: array<byte>, src: Ip, dst: Ip) returns (ok: bool)
    modifies a
    ensures ok == CanRewrite(old(a[..]))
    ensures a[..] == if ok then Rewritten(old(a[..]), src, dst) else old(a[..])
  {
    hide InternetSum, Put;
    ghost var p := a[..];
    if a.Length < IPV4_HEADER_LEN {
      return false;
    }
    var headerLen := a[0] % 16 * 4;
    var totalLen := Word(a[IPV4_OFF_TOTAL_LEN], a[IPV4_OFF_TOTAL_LEN + 1]);
    if headerLen < IPV4_HEADER_LEN || headerLen > a.Length || totalLen < headerLen || totalLen > a.Length {
      return false;
    }
    var proto := a[IPV4_OFF_PROTOCOL];
    StoreIp(a, IPV4_OFF_SRC, src);
    StoreIp(a, IPV4_OFF_DST, dst);
    Store16(a, IPV4_OFF_CHECKSUM, 0);
    assert a[..] == WithAddresses(p, src, dst);
    assert a[..headerLen] == a[..][..headerLen];
    var checksum := ChecksumOfHeader(a[..headerLen]);
    Store16(a, IPV4_OFF_CHECKSUM, checksum);
    assert a[..] == WithHeaderChecksum(WithAddresses(p, src, dst), headerLen);
    ProtocolKept(p, src, dst);
    if a[IPV4_OFF_PROTOCOL] == IPV4_PROTOCOL_UDP && totalLen >= headerLen + 8 {
      Store16(a, headerLen + UDP_OFF_CHECKSUM, 0);
      checksum := UdpChecksum(a[..], headerLen, totalLen);
      Store16(a, headerLen + UDP_OFF_CHECKSUM, checksum);
    }
    return true;
  }

  method ChecksumOfHeader(s: seq<byte>) returns (r: u16)
    requires |s| <= 60
    ensures r == Inverted(InternetSum(s))
  {
    r := HeaderChecksum(s);
  }

  /** Writing the addresses and the header checksum touches no other byte. */
  lemma ProtocolKept(p: seq<byte>, src: Ip, dst: Ip)
    requires CanRewrite(p)
    ensures var q := WithHeaderChecksum(WithAddresses(p, src, dst), HeaderLen(p));
            && q[IPV4_OFF_PROTOCOL] == p[IPV4_OFF_PROTOCOL]
            && q[IPV4_OFF_SRC..IPV4_OFF_DST + 4] == src + dst
            && forall i :: 0 <= i < IPV4_OFF_CHECKSUM || IPV4_HEADER_LEN <= i < |p| ==> q[i] == p[i]
  {
  }

  // ------------------------------------------------------ what rewriting does

  predicate HeaderValid(p: seq<byte>)
    requires CanRewrite(p)
  {
    InternetSum(p[..HeaderLen(p)]) == 0xffff
  }

  /** A whole UDP datagram: unfragmented, its length field agreeing with the IP header. */
  predicate WholeUdp(p: seq<byte>) {
    && CanRewrite(p)
    && |p| == Read16(p, IPV4_OFF_TOTAL_LEN) <= ETHER_MTU
    && HasUdp(p)
    && Read16(p, IPV4_OFF_FLAGS_FRAG_OFFSET) % 0x4000 == 0
    && Read16(p, HeaderLen(p) + UDP_OFF_LENGTH) == |p| - HeaderLen(p)
  }

  /** The receiver's check: RFC 768, with the length taken from the UDP header. */
  predicate UdpValid(p: seq<byte>)
    requires WholeUdp(p)
  {
    var udp := p[HeaderLen(p)..];
    && Read16(udp, UDP_OFF_CHECKSUM) != 0
    && InternetSum(Src(p) + Dst(p) + [0, IPV4_PROTOCOL_UDP] + udp[UDP_OFF_LENGTH..UDP_OFF_LENGTH + 2] + udp) == 0xffff
  }

  /** The bytes outside the addresses and the two checksums. */
  predicate Fixed(p: seq<byte>, i: nat)
    requires CanRewrite(p)
  {
    !(IPV4_OFF_CHECKSUM <= i < IPV4_HEADER_LEN) && !(HeaderLen(p) + 6 <= i < HeaderLen(p) + 8)
  }

  /** Only the addresses and the two checksums may differ. */
  predicate Translated(p: seq<byte>, q: seq<byte>)
    requires CanRewrite(p)
  {
    && |p| == |q|
    && (forall i :: 0 <= i < |p| && Fixed(p, i) ==> q[i] == p[i])
  }

  lemma HeaderChecksumValid(p: seq<byte>, headerLen: nat)
    requires IPV4_HEADER_LEN <= headerLen <= |p|
    requires p[IPV4_OFF_CHECKSUM] == 0 && p[IPV4_OFF_CHECKSUM + 1] == 0
    ensures InternetSum(WithHeaderChecksum(p, headerLen)[..headerLen]) == 0xffff
  {
    var header := p[..headerLen];
    StoredChecksumVerifies(header, IPV4_OFF_CHECKSUM);
    assert WithHeaderChecksum(p, headerLen)[..headerLen]
        == Put(header, IPV4_OFF_CHECKSUM, Net16(Inverted(InternetSum(header))));
  }

  /** The UDP variant: an all-zero checksum stored as all ones still verifies. */
  lemma StoredUdpVerifies(s: seq<byte>, off: nat)
    requires off % 2 == 0 && off + 2 <= |s|
    requires s[off] == 0 && s[off + 1] == 0
    ensures InternetSum(Put(s, off, Net16(UdpChecksumOf(s)))) == 0xffff
  {
    if Inverted(InternetSum(s)) != 0 {
      StoredChecksumVerifies(s, off);
    } else {
      PutWordSum(s, off, 0xffff);
      SumIsInternetSum(s);
      SumIsInternetSum(Put(s, off, Net16(0xffff)));
    }
  }

  lemma UdpChecksumValid(p: seq<byte>, headerLen: nat)
    requires IPV4_HEADER_LEN <= headerLen && headerLen + 8 <= |p| < 0x1_0000
    ensures InternetSum(UdpCovered(WithUdpChecksum(p, headerLen, |p|), headerLen, |p|)) == 0xffff
  {
    hide InternetSum, UdpChecksumOf;
    var off := headerLen + UDP_OFF_CHECKSUM;
    var zeroed := Put(p, off, Net16(0));
    var covered := UdpCovered(zeroed, headerLen, |p|);
    var v := UdpChecksumOf(covered);
    assert zeroed[off..off + 2] == Net16(0);
    assert covered[18] == zeroed[off] && covered[19] == zeroed[off + 1];
    StoredUdpVerifies(covered, 12 + UDP_OFF_CHECKSUM);
    var stored := Put(zeroed, off, Net16(v));
    assert stored[headerLen..|p|] == Put(zeroed[headerLen..|p|], UDP_OFF_CHECKSUM, Net16(v));
    assert UdpCovered(stored, headerLen, |p|) == Put(covered, 12 + UDP_OFF_CHECKSUM, Net16(v));
  }

  /** The UDP checksum that is stored, never zero. */
  function UdpStored(p: seq<byte>, headerLen: nat, totalLen: nat): (v: u16)
    requires IPV4_HEADER_LEN <= headerLen && headerLen + 8 <= totalLen <= |p| && totalLen < 0x1_0000
    ensures v != 0
  {
    UdpChecksumOf(UdpCovered(Put(p, headerLen + UDP_OFF_CHECKSUM, Net16(0)), headerLen, totalLen))
  }

  /** Storing the UDP checksum touches its own field only, and never leaves it zero. */
  lemma UdpStore(p: seq<byte>, headerLen: nat, totalLen: nat)
    requires IPV4_HEADER_LEN <= headerLen && headerLen + 8 <= totalLen <= |p| && totalLen < 0x1_0000
    ensures var q := WithUdpChecksum(p, headerLen, totalLen);
            && Word(q[headerLen + 6], q[headerLen + 7]) == UdpStored(p, headerLen, totalLen)
            && q[headerLen + 6..headerLen + 8] == Net16(UdpStored(p, headerLen, totalLen))
            && forall i :: 0 <= i < headerLen + 6 || headerLen + 8 <= i < |p| ==> q[i] == p[i]
  {
    var off := headerLen + UDP_OFF_CHECKSUM;
    var zeroed := Put(p, off, Net16(0));
    var v := UdpChecksumOf(UdpCovered(zeroed, headerLen, totalLen));
    hide InternetSum, UdpChecksumOf;
    var q := Put(zeroed, off, Net16(v));
    assert q[off..off + 2] == Net16(v);
    assert q[off] == v / 0x100 && q[off + 1] == v % 0x100;
  }

  /** The checksum the rewrite of p stores in the UDP header, or in what it takes for one. */
  function NewUdpChecksum(p: seq<byte>, src: Ip, dst: Ip): (v: u16)
    requires CanRewrite(p) && HasUdp(p)
    ensures v != 0
  {
    UdpStored(WithHeaderChecksum(WithAddresses(p, src, dst), HeaderLen(p)), HeaderLen(p), Read16(p, IPV4_OFF_TOTAL_LEN))
  }

  /** Every byte of the rewritten packet, whatever its protocol. */
  lemma RewrittenBytes(p: seq<byte>, src: Ip, dst: Ip)
    requires CanRewrite(p)
    ensures var q, h := Rewritten(p, src, dst), HeaderLen(p);
            && (forall i :: 0 <= i < IPV4_OFF_CHECKSUM || IPV4_HEADER_LEN <= i < h + 6 || h + 8 <= i ==>
                  i < |p| ==> q[i] == p[i])
            && (!HasUdp(p) ==> q[h..] == p[h..])
            && (HasUdp(p) ==> q[h + 6..h + 8] == Net16(NewUdpChecksum(p, src, dst)))
            && q[IPV4_OFF_SRC..IPV4_OFF_DST + 4] == src + dst
            && q[..h] == WithHeaderChecksum(WithAddresses(p, src, dst), h)[..h]
  {
    hide WithHeaderChecksum, WithAddresses, WithUdpChecksum, InternetSum, Put, Read16, UdpStored;
    var h := HeaderLen(p);
    var headed := WithHeaderChecksum(WithAddresses(p, src, dst), h);
    ProtocolKept(p, src, dst);
    if HasUdp(p) {
      UdpStore(headed, h, Read16(p, IPV4_OFF_TOTAL_LEN));
    }
  }

  lemma RewrittenParses(p: seq<byte>, src: Ip, dst: Ip)
    requires CanRewrite(p)
    ensures var q := Rewritten(p, src, dst);
            CanRewrite(q) && HeaderLen(q) == HeaderLen(p) && Src(q) == src && Dst(q) == dst
  {
    RewrittenBytes(p, src, dst);
    hide Rewritten;
    var q := Rewritten(p, src, dst);
    assert q[0] == p[0] && q[2] == p[2] && q[3] == p[3];
    assert Src(q) == (src + dst)[..4] && Dst(q) == (src + dst)[4..];
  }

  /**
   The payload comes through unchanged if and only if the rewrite does not take
   it for a UDP datagram, or the two bytes in the checksum's place already are
   what it computes.
   */
  lemma PayloadSurvivesIff(p: seq<byte>, src: Ip, dst: Ip)
    requires CanRewrite(p)
    ensures var q, h := Rewritten(p, src, dst), HeaderLen(p);
            q[h..] == p[h..] <==> !HasUdp(p) || p[h + 6..h + 8] == Net16(NewUdpChecksum(p, src, dst))
  {
    RewrittenBytes(p, src, dst);
    hide Rewritten, NewUdpChecksum, Net16, Read16;
    var q, h := Rewritten(p, src, dst), HeaderLen(p);
    if HasUdp(p) {
      hide HeaderLen;
      TailsAgree(p, q, h);
    }
  }

  lemma TailsAgree(p: seq<byte>, q: seq<byte>, h: nat)
    requires |q| == |p| && h + 8 <= |p|
    requires forall i :: h <= i < h + 6 || h + 8 <= i < |p| ==> q[i] == p[i]
    ensures q[h..] == p[h..] <==> p[h + 6..h + 8] == q[h + 6..h + 8]
  {
    assert p[h + 6..h + 8] == [p[h + 6], p[h + 7]] && q[h + 6..h + 8] == [q[h + 6], q[h + 7]];
    if q[h..] == p[h..] {
      assert q[h..][6] == p[h..][6] && q[h..][7] == p[h..][7];
    }
  }

  /** So a later fragment of a UDP datagram whose bytes 6 and 7 are zero is always damaged. */
  lemma FragmentIsDamaged(p: seq<byte>, src: Ip, dst: Ip)
    requires CanRewrite(p) && HasUdp(p) && Read16(p, IPV4_OFF_FLAGS_FRAG_OFFSET) % 0x2000 > 0
    requires p[HeaderLen(p) + 6] == 0 && p[HeaderLen(p) + 7] == 0
    ensures Rewritten(p, src, dst)[HeaderLen(p)..] != p[HeaderLen(p)..]
  {
    hide Rewritten, NewUdpChecksum;
    PayloadSurvivesIff(p, src, dst);
    var h, v := HeaderLen(p), NewUdpChecksum(p, src, dst);
    hide HeaderLen, Read16;
    assert p[h + 6..h + 8] == [p[h + 6], p[h + 7]];
    assert Net16(v)[0] != 0 || Net16(v)[1] != 0;
  }

  lemma TranslatedKeepsUdp(p: seq<byte>, q: seq<byte>)
    requires WholeUdp(p) && Translated(p, q)
    ensures WholeUdp(q) && HeaderLen(q) == HeaderLen(p)
  {
    var h := HeaderLen(p);
    assert forall i <- [0, 2, 3, 6, 7, 9, h + 4, h + 5] :: 0 <= i < |p| && Fixed(p, i);
    assert forall i <- [0, 2, 3, 6, 7, 9, h + 4, h + 5] :: q[i] == p[i];
  }

  lemma RewrittenTranslated(p: seq<byte>, src: Ip, dst: Ip)
    requires CanRewrite(p)
    ensures Translated(p, Rewritten(p, src, dst))
  {
    RewrittenBytes(p, src, dst);
    hide Rewritten;
  }

  lemma {:induction false} RewrittenShape(p: seq<byte>, src: Ip, dst: Ip)
    requires WholeUdp(p)
    ensures var q := Rewritten(p, src, dst);
            && Translated(p, q) && WholeUdp(q) && HeaderLen(q) == HeaderLen(p)
            && Src(q) == src && Dst(q) == dst
            && Word(q[HeaderLen(p) + 6], q[HeaderLen(p) + 7]) != 0
  {
    var q, h := Rewritten(p, src, dst), HeaderLen(p);
    RewrittenBytes(p, src, dst);
    RewrittenTranslated(p, src, dst);
    RewrittenParses(p, src, dst);
    hide Rewritten, NewUdpChecksum;
    TranslatedKeepsUdp(p, q);
    hide WholeUdp, Translated;
    assert q[h + 6] == q[h + 6..h + 8][0] && q[h + 7] == q[h + 6..h + 8][1];
  }

  /** The header checksum is valid after the rewrite of every packet, fragments and other protocols included. */
  lemma {:induction false} RewrittenHeaderValid(p: seq<byte>, src: Ip, dst: Ip)
    requires CanRewrite(p)
    ensures var q := Rewritten(p, src, dst); CanRewrite(q) && HeaderValid(q)
  {
    var h := HeaderLen(p);
    var addressed := WithAddresses(p, src, dst);
    assert addressed[IPV4_OFF_CHECKSUM..IPV4_OFF_CHECKSUM + 2] == Net16(0);
    hide WithHeaderChecksum, WithAddresses, InternetSum, Put, Rewritten, NewUdpChecksum;
    HeaderChecksumValid(addressed, h);
    RewrittenBytes(p, src, dst);
    RewrittenParses(p, src, dst);
  }

  /** What the sender sums is what the receiver checks. */
  lemma CoveredIsValid(q: seq<byte>)
    requires WholeUdp(q) && Word(q[HeaderLen(q) + 6], q[HeaderLen(q) + 7]) != 0
    requires InternetSum(UdpCovered(q, HeaderLen(q), |q|)) == 0xffff
    ensures UdpValid(q)
  {
    hide InternetSum;
    var h := HeaderLen(q);
    assert q[h..|q|] == q[h..];
    assert q[h..][UDP_OFF_LENGTH..UDP_OFF_LENGTH + 2] == Net16(|q| - h);
    assert q[IPV4_OFF_SRC..IPV4_OFF_SRC + 8] == Src(q) + Dst(q);
    assert UdpCovered(q, h, |q|) == Src(q) + Dst(q) + [0, IPV4_PROTOCOL_UDP] + Net16(|q| - h) + q[h..];
  }

  lemma RewrittenUdpValid(p: seq<byte>, src: Ip, dst: Ip)
    requires WholeUdp(p)
    ensures var q := Rewritten(p, src, dst); WholeUdp(q) && UdpValid(q)
  {
    hide WithHeaderChecksum, WithAddresses, WithUdpChecksum, InternetSum, Put;
    var h := HeaderLen(p);
    UdpChecksumValid(WithHeaderChecksum(WithAddresses(p, src, dst), h), h);
    RewrittenShape(p, src, dst);
    var q := Rewritten(p, src, dst);
    CoveredIsValid(q);
  }
}
