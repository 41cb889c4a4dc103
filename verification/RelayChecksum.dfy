/**
 The relay's own checksum routines: carry folding in src/lan-play.c, repeated
 subtraction of 0xffff in src/ipv4/ipv4.c. Both must produce the checksum of RFC 1071.
 */
module RelayChecksum {
  import opened Bytes
  import opened InternetChecksum

  const IPV4_OFF_SRC := 12
  const IPV4_PROTOCOL_UDP := 17
  const MAX_LEN := 0x2_0002

  /** Adding one big-endian word extends the summed prefix by two bytes. */
  lemma PairSum(s: seq<byte>, i: nat)
    requires i % 2 == 0 && i + 1 < |s|
    ensures Sum(s[..i + 2], 0x100) == Sum(s[..i], 0x100) + Word(s[i], s[i + 1])
  {
    assert s[..i + 2] == s[..i] + [s[i], s[i + 1]];
    SumAppend(s[..i], [s[i], s[i + 1]], 0x100);
    assert [s[i], s[i + 1]][1..] == [s[i + 1]];
    assert Sum([s[i + 1]], 1) == s[i + 1];
  }

  /** A dangling last byte is the high byte of a zero-padded word. */
  lemma LastSum(s: seq<byte>)
    requires |s| % 2 == 1
    ensures Sum(s, 0x100) == Sum(s[..|s| - 1], 0x100) + Word(s[|s| - 1], 0)
  {
    var n := |s| - 1;
    assert s == s[..n] + [s[n]];
    SumAppend(s[..n], [s[n]], 0x100);
  }

  lemma PrefixFits(s: seq<byte>, i: nat)
    requires i <= |s| <= MAX_LEN
    ensures Sum(s[..i], 0x100) < 0x1_0000_0000
  {
    SumBound(s[..i], 0x100);
  }

  /** checksum_add_bytes: adds the words of `bytes` to a running sum that has room for them. */
  method AddBytes(start: u32, bytes: seq<byte>) returns (sum: u32)
    requires start + Sum(bytes, 0x100) < 0x1_0000_0000
    ensures sum == start + Sum(bytes, 0x100)
  {
    hide Sum;
    sum := start;
    var i := 0;
    SumEmpty(0x100);
    while |bytes| - i >= 2
      invariant 0 <= i <= |bytes| && i % 2 == 0
      invariant sum == start + Sum(bytes[..i], 0x100)
    {
      PairSum(bytes, i);
      SumPrefix(bytes, i + 2);
      sum := Add32(sum, Word(bytes[i], bytes[i + 1]));
      i := i + 2;
    }
    if i < |bytes| {
      LastSum(bytes);
      sum := Add32(sum, Word(bytes[i], 0));
    } else {
      assert bytes[..i] == bytes;
    }
  }

  lemma SumPrefix(s: seq<byte>, i: nat)
    requires i <= |s|
    ensures Sum(s[..i], 0x100) <= Sum(s, 0x100)
  {
    assert s == s[..i] + s[i..];
    SumAppend(s[..i], s[i..], 0x100);
  }

  /** while (sum >> 16) sum = (sum & 0xffff) + (sum >> 16). */
  method FoldAll(start: u32) returns (r: u16)
    ensures r == Norm(start)
  {
    var sum := start;
    hide Same, Norm;
    SameSelf(start);
    while sum / 0x1_0000 != 0
      invariant Same(sum, start)
      decreases sum
    {
      SameFold(sum);
      SameTrans(Fold(sum), sum, start);
      sum := Fold(sum);
    }
    NormUnique(start, sum);
    r := sum;
  }

  /** while (sum > 0xffff) sum -= 0xffff: reaches the same representative as folding. */
  method SubtractAll(start: u32) returns (r: u16)
    ensures r == Norm(start)
  {
    var sum := start;
    while sum > 0xffff
      invariant Same(sum, start)
      decreases sum
    {
      sum := sum - 0xffff;
    }
    NormUnique(start, sum);
    r := sum;
  }

  /** ipv4_header_checksum. */
  method HeaderChecksum(s: seq<byte>) returns (r: u16)
    requires |s| <= MAX_LEN
    ensures r == Inverted(InternetSum(s))
  {
    hide Sum, Norm, InternetSum;
    SumBound(s, 0x100);
    var sum := AddBytes(0, s);
    SumIsInternetSum(s);
    var folded := FoldAll(sum);
    r := Inverted(folded);
  }

  /** The bytes the UDP checksum covers: pseudo header, then the datagram. */
  function UdpCovered(ip: seq<byte>, headerLen: nat, totalLen: nat): seq<byte>
    requires 20 <= headerLen <= totalLen <= |ip| && totalLen < 0x1_0000
  {
    ip[IPV4_OFF_SRC..IPV4_OFF_SRC + 8] + [0, IPV4_PROTOCOL_UDP] + Net16(totalLen - headerLen) + ip[headerLen..totalLen]
  }

  /** The checksum, with the all-zero value that means "none" in UDP sent as all ones. */
  function UdpChecksumOf(covered: seq<byte>): (r: u16)
    ensures r != 0
  {
    var c := Inverted(InternetSum(covered));
    if c != 0 then c else 0xffff
  }

  /** udp_checksum. */
  method UdpChecksum(ip: seq<byte>, headerLen: nat, totalLen: nat) returns (r: u16)
    requires 20 <= headerLen <= totalLen <= |ip| && totalLen < 0x1_0000
    ensures r == UdpChecksumOf(UdpCovered(ip, headerLen, totalLen))
  {
    hide Sum, Norm, InternetSum;
    var addresses := ip[IPV4_OFF_SRC..IPV4_OFF_SRC + 8];
    var udp := ip[headerLen..totalLen];
    SumBound(addresses, 0x100);
    SumBound(udp, 0x100);
    var sum := AddBytes(0, addresses);
    sum := Add32(sum, IPV4_PROTOCOL_UDP);
    sum := Add32(sum, totalLen - headerLen);
    sum := AddBytes(sum, udp);
    UdpCoveredSum(ip, headerLen, totalLen);
    SumIsInternetSum(UdpCovered(ip, headerLen, totalLen));
    var folded := FoldAll(sum);
    var result := Inverted(folded);
    r := if result != 0 then result else 0xffff;
  }

  lemma UdpCoveredSum(ip: seq<byte>, headerLen: nat, totalLen: nat)
    requires 20 <= headerLen <= totalLen <= |ip| && totalLen < 0x1_0000
    ensures Sum(UdpCovered(ip, headerLen, totalLen), 0x100)
            == Sum(ip[IPV4_OFF_SRC..IPV4_OFF_SRC + 8], 0x100) + IPV4_PROTOCOL_UDP + (totalLen - headerLen)
               + Sum(ip[headerLen..totalLen], 0x100)
  {
    var addresses, udp := ip[IPV4_OFF_SRC..IPV4_OFF_SRC + 8], ip[headerLen..totalLen];
    var proto, length := Net16(IPV4_PROTOCOL_UDP), Net16(totalLen - headerLen);
    WordSum(IPV4_PROTOCOL_UDP);
    WordSum(totalLen - headerLen);
    hide Sum;
    assert UdpCovered(ip, headerLen, totalLen) == addresses + proto + (length + udp);
    ThreePartSum(addresses, proto, length + udp);
    SumAppend(length, udp, 0x100);
  }

  /** calc_checksum's sum: a dangling last byte is added unshifted. */
  function CalcSum(s: seq<byte>): nat {
    if |s| % 2 == 0 then Sum(s, 0x100) else Sum(s[..|s| - 1], 0x100) + s[|s| - 1]
  }

  /**
   calc_checksum. It is the checksum of RFC 1071 if and only if the length is
   even or the last byte is zero.
   */
  method CalcChecksum(s: seq<byte>) returns (r: u16)
    requires |s| <= MAX_LEN
    ensures r == Inverted(Norm(CalcSum(s)))
    ensures r == Inverted(InternetSum(s)) <==> |s| % 2 == 0 || s[|s| - 1] == 0
  {
    SumEmpty(0x100);
    hide Sum, InternetSum, Norm;
    var i := 0;
    var sum: u32 := 0;
    while |s| - i > 1
      invariant 0 <= i <= |s| && i % 2 == 0
      invariant sum == Sum(s[..i], 0x100)
    {
      PairSum(s, i);
      PrefixFits(s, i + 2);
      sum := Add32(sum, Word(s[i], s[i + 1]));
      i := i + 2;
    }
    CalcSumExact(s);
    SumBound(s[..i], 0x100);
    assert sum == CalcSum(s) - (if |s| - i != 0 then s[i] else 0) by {
      assert |s| - i == 0 ==> s[..i] == s;
    }
    hide CalcSum;
    if |s| - i != 0 {
      sum := Add32(sum, s[i]);
    }
    var folded := SubtractAll(sum);
    r := Inverted(folded);
  }

  lemma {:induction false} CalcSumExact(s: seq<byte>)
    ensures Norm(CalcSum(s)) == InternetSum(s) <==> |s| % 2 == 0 || s[|s| - 1] == 0
  {
    hide Sum, InternetSum, Norm;
    SumIsInternetSum(s);
    if |s| % 2 == 1 {
      LastSum(s);
      ShiftMatters(Sum(s[..|s| - 1], 0x100), s[|s| - 1]);
    }
  }

  /** Adding a byte unshifted or as a high byte gives the same sum only for a zero byte. */
  lemma ShiftMatters(base: nat, b: byte)
    ensures Norm(base + b) == Norm(base + Word(b, 0)) <==> b == 0
  {
    if Norm(base + b) == Norm(base + Word(b, 0)) {
      var k := base + b;
      SameNormed(k);
      SameNormed(base + Word(b, 0));
      assert (0xff * b as int) % 0xffff == 0;
    }
  }

  /**
   The chains calc_payload_checksum can walk inside its buffers: a part of odd
   length is the last one, or is followed by a part of exactly one byte, whose
   byte completes the word. (Its cursor skips two bytes, not one, after an odd part.)
   */
  predicate Readable(parts: seq<seq<byte>>) {
    || parts == []
    || (|parts[0]| % 2 == 0 && Readable(parts[1..]))
    || (|parts[0]| % 2 == 1 && (|parts| == 1 || (|parts[1]| == 1 && Readable(parts[2..]))))
  }

  /** Where the inner loop ends, and whether every word it read was inside a part of n bytes. */
  function InnerReads(n: nat, pos: nat, len: int): (bool, nat, int)
    decreases len
  {
    if len > 1 then
      var (inside, pos', len') := InnerReads(n, pos + 2, len - 2);
      (pos + 2 <= n && inside, pos', len')
    else (true, pos, len)
  }

  /** Every read of calc_payload_checksum is inside its part: the cursor starts `offset` words, not bytes, into it. */
  predicate ReadsInside(parts: seq<seq<byte>>, offset: nat)
    decreases |parts|
  {
    || parts == []
    || var (inside, pos, len) := InnerReads(|parts[0]|, 2 * offset, |parts[0]| - offset);
       && inside
       && (len != 0 ==> pos < |parts[0]| && (|parts| > 1 ==> |parts[1]| > 0))
       && ReadsInside(parts[1..], if len != 0 then 1 else 0)
  }

  lemma {:induction false} InnerEnd(n: nat, pos: nat, len: int)
    ensures var (inside, pos', len') := InnerReads(n, pos, len);
            && (inside <==> len <= 1 || pos + len / 2 * 2 <= n)
            && (len > 1 ==> pos' == pos + len / 2 * 2 && len' == len % 2)
            && (len <= 1 ==> pos' == pos && len' == len)
    decreases len
  {
    if len > 1 {
      InnerEnd(n, pos + 2, len - 2);
    }
  }

  /** The chains on which every read stays inside are exactly the readable ones. */
  lemma {:induction false} InsideIffReadable(parts: seq<seq<byte>>)
    ensures ReadsInside(parts, 0) <==> Readable(parts)
    ensures ReadsInside(parts, 1) <==> parts == [] || (|parts[0]| == 1 && Readable(parts[1..]))
    decreases |parts|
  {
    if parts != [] {
      InnerEnd(|parts[0]|, 0, |parts[0]|);
      InnerEnd(|parts[0]|, 2, |parts[0]| - 1);
      hide InnerReads;
      InsideIffReadable(parts[1..]);
      assert |parts| > 1 ==> parts[1..][1..] == parts[2..];
    }
  }

  /** Two chains that fail: after one byte, an empty part, and a part of two bytes. */
  lemma OddPartReadsOutside()
    ensures !ReadsInside([[1], []], 0) && !ReadsInside([[1], [2, 3]], 0)
  {
    var empty: seq<seq<byte>>, two: seq<seq<byte>> := [[1], []], [[1], [2, 3]];
    assert |empty[0]| % 2 == 1 && |empty[1]| == 0 && |two[0]| % 2 == 1 && |two[1]| == 2;
    InsideIffReadable(empty);
    InsideIffReadable(two);
  }

  /** What has been summed when part `i` is next: everything before it, and its first byte if `offset` is 1. */
  function Consumed(parts: seq<seq<byte>>, i: nat, offset: nat): seq<byte>
    requires i <= |parts|
  {
    if offset == 1 && i < |parts| then Flatten(parts[..i]) + parts[i] else Flatten(parts[..i])
  }

  /** The chain is still readable from part `i` on, and whole words have been summed so far. */
  predicate Walking(parts: seq<seq<byte>>, i: nat, offset: nat)
    requires i <= |parts|
  {
    && (offset == 0 || offset == 1)
    && (i < |parts| ==>
          && |Consumed(parts, i, offset)| % 2 == 0
          && if offset == 0 then Readable(parts[i..]) else |parts[i]| == 1 && Readable(parts[i + 1..]))
  }

  /** One iteration of the walk: the words of part `i`, and the word it shares with the next part. */
  method AddPart(parts: seq<seq<byte>>, i: nat, offset: nat, start: u32) returns (sum: u32, offset': nat)
    requires i < |parts| && |Flatten(parts)| <= MAX_LEN
    requires Walking(parts, i, offset) && start == Sum(Consumed(parts, i, offset), 0x100)
    ensures Walking(parts, i + 1, offset') && sum == Sum(Consumed(parts, i + 1, offset'), 0x100)
  {
    hide Sum, Flatten;
    ghost var before := Flatten(parts[..i]);
    FlattenAt(parts, i);
    assert parts[i][..|parts[i]|] == parts[i];
    assert parts[i..][1..] == parts[i + 1..];
    var pos, len;
    sum, pos, len := AddWords(start, before, parts[i], offset);
    if len == 0 {
      return sum, 0;
    }
    var hi := parts[i][pos];
    if i + 1 < |parts| {
      assert parts[i..][2..] == parts[i + 2..];
      FlattenAt(parts, i + 1);
      ClosingPair(before, parts[i], parts[i + 1]);
      sum := Add32(sum, Word(hi, parts[i + 1][0]));
    } else {
      ClosingByte(before, parts[i]);
      sum := Add32(sum, Word(hi, 0));
    }
    offset' := 1;
  }

  /** calc_payload_checksum: the checksum of the flattened chain, on every chain whose memory it stays inside of. */
  method CalcPayloadChecksum(parts: seq<seq<byte>>) returns (r: u16)
    requires ReadsInside(parts, 0)
    requires |Flatten(parts)| <= MAX_LEN
    ensures r == Inverted(InternetSum(Flatten(parts)))
  {
    InsideIffReadable(parts);
    hide Sum, InternetSum, Norm;
    ghost var flat := Flatten(parts);
    var sum: u32 := 0;
    var offset := 0;
    var i := 0;
    SumEmpty(0x100);
    assert parts[..0] == [] && parts[0..] == parts;
    while i < |parts|
      invariant 0 <= i <= |parts|
      invariant Walking(parts, i, offset)
      invariant sum == Sum(Consumed(parts, i, offset), 0x100)
    {
      sum, offset := AddPart(parts, i, offset, sum);
      i := i + 1;
    }
    assert parts[..i] == parts;
    SumIsInternetSum(flat);
    var folded := SubtractAll(sum);
    r := Inverted(folded);
  }

  /** The inner loop, over one part: `offset` is 1 when its first byte has been summed already. */
  method AddWords(start: u32, ghost before: seq<byte>, part: seq<byte>, offset: nat)
    returns (sum: u32, pos: nat, len: nat)
    requires offset == 0 || (offset == 1 && |part| == 1)
    requires offset == 0 ==> |before| % 2 == 0 && |before| + |part| <= MAX_LEN && start == Sum(before, 0x100)
    ensures offset == 1 ==> sum == start && len == 0
    ensures offset == 0 ==> len == |part| % 2 && pos == |part| - len && sum == Sum(before + part[..pos], 0x100)
  {
    hide Sum;
    sum, pos, len := start, 2 * offset, |part| - offset;
    assert before + part[..0] == before;
    while len > 1
      invariant offset == 1 ==> sum == start && len == 0
      invariant offset == 0 ==> pos + len == |part| && pos % 2 == 0 && sum == Sum(before + part[..pos], 0x100)
    {
      ghost var next := before + part[..pos + 2];
      assert next[..|next| - 2] == before + part[..pos];
      PairSum(next, |next| - 2);
      assert next[..|next|] == next;
      SumBound(next, 0x100);
      sum := Add32(sum, Word(part[pos], part[pos + 1]));
      pos := pos + 2;
      len := len - 2;
    }
  }

  /** An odd part and the one byte after it form the closing word. */
  lemma {:induction false} ClosingPair(before: seq<byte>, part: seq<byte>, next: seq<byte>)
    requires |before| % 2 == 0 && |part| % 2 == 1 && |next| == 1
    requires |before| + |part| + 1 <= MAX_LEN
    ensures Sum(before + part + next, 0x100)
            == Sum(before + part[..|part| - 1], 0x100) + Word(part[|part| - 1], next[0]) < 0x1_0000_0000
  {
    hide Sum;
    var whole := before + part + next;
    assert whole[..|whole| - 2] == before + part[..|part| - 1];
    PairSum(whole, |whole| - 2);
    assert whole[..|whole|] == whole;
    SumBound(whole, 0x100);
  }

  lemma {:induction false} ClosingByte(before: seq<byte>, part: seq<byte>)
    requires |before| % 2 == 0 && |part| % 2 == 1 && |before| + |part| <= MAX_LEN
    ensures Sum(before + part, 0x100)
            == Sum(before + part[..|part| - 1], 0x100) + Word(part[|part| - 1], 0) < 0x1_0000_0000
  {
    hide Sum;
    var whole := before + part;
    assert whole[..|whole| - 1] == before + part[..|part| - 1];
    LastSum(whole);
    SumBound(whole, 0x100);
  }

  lemma FlattenAt(parts: seq<seq<byte>>, i: nat)
    requires i < |parts|
    ensures Flatten(parts[..i + 1]) == Flatten(parts[..i]) + parts[i]
    ensures |Flatten(parts[..i + 1])| <= |Flatten(parts)|
  {
    assert parts[..i + 1] == parts[..i] + [parts[i]];
    FlattenSnoc(parts[..i], parts[i]);
    FlattenSplit(parts, i + 1);
  }
}
