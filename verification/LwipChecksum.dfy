/**
 The checksum routines of lwIP (lwip/src/core/inet_chksum.c): three versions of
 lwip_standard_chksum, and the sums over pbuf chains built on the second.

 A pointer into a buffer is an index into its bytes; `addr` is the address of
 the first byte, of which only the alignment matters. Every 32-bit addition
 wraps as C's does, so that the absence of overflow is proved, not assumed.
 */
module LwipChecksum {
  import opened Bytes
  import opened InternetChecksum

  /** The longest buffer whose sum always fits the 32-bit accumulator; see AccumulatorRange. */
  const MAX_LEN := 0x2_0002

  /** What every version of lwip_standard_chksum returns: the sum, not inverted, in host order. */
  function StandardSum(s: seq<byte>, w: Weight): u16 {
    HostOrder(InternetSum(s), w)
  }

  /** A 16-bit load in the host's byte order. */
  function Load16(s: seq<byte>, i: nat, w: Weight): u16
    requires i + 1 < |s|
  {
    if w == 1 then Word(s[i + 1], s[i]) else Word(s[i], s[i + 1])
  }

  /** A 32-bit load in the host's byte order. */
  function Load32(s: seq<byte>, i: nat, w: Weight): u32
    requires i + 3 < |s|
  {
    var first: int, second: int := Load16(s, i, w), Load16(s, i + 2, w);
    if w == 1 then second * 0x1_0000 + first else first * 0x1_0000 + second
  }

  lemma Load16Sum(s: seq<byte>, lo: nat, i: nat, w: Weight)
    requires lo <= i && i + 1 < |s| && (i - lo) % 2 == 0
    ensures Sum(s[lo..i + 2], w) == Sum(s[lo..i], w) + Load16(s, i, w)
  {
    assert s[lo..i + 2] == s[lo..i] + [s[i], s[i + 1]];
    SumAppend(s[lo..i], [s[i], s[i + 1]], w);
    assert [s[i], s[i + 1]][1..] == [s[i + 1]];
    assert Sum([s[i + 1]], Flip(w)) == Weighted(s[i + 1], Flip(w));
  }

  lemma HalvesSame(hi: nat, lo: nat)
    ensures Same(hi * 0x1_0000 + lo, hi + lo)
  {
    assert hi * 0x1_0000 + lo - (hi + lo) == 0xffff * hi;
  }

  lemma Load32Sum(s: seq<byte>, lo: nat, i: nat, w: Weight)
    requires lo <= i && i + 3 < |s| && (i - lo) % 2 == 0
    ensures exists x: nat :: Same(Load32(s, i, w), x) && Sum(s[lo..i + 4], w) == Sum(s[lo..i], w) + x
  {
    hide Sum, Same, Load16;
    var first: nat, second: nat := Load16(s, i, w), Load16(s, i + 2, w);
    HalvesSame(first, second);
    HalvesSame(second, first);
    assert Same(Load32(s, i, w), first + second);
    Load16Sum(s, lo, i, w);
    Load16Sum(s, lo, i + 2, w);
  }

  lemma RangeFits(s: seq<byte>, lo: nat, hi: nat, w: Weight)
    requires lo <= hi <= |s| <= MAX_LEN
    ensures Sum(s[lo..hi], w) < 0x1_0000_0000
  {
    SumBound(s[lo..hi], w);
  }

  /** The sum seen from an odd address: the head byte takes the other weight. */
  lemma OddStart(s: seq<byte>, w: Weight)
    requires |s| > 0
    ensures Sum(s, Flip(w)) == Weighted(s[0], Flip(w)) + Sum(s[1..], w)
  {
  }

  /** Adding the end bytes `t` completes the sum in the weight of the start address. */
  lemma EndBytes(s: seq<byte>, start: nat, pos: nat, t: nat, w: Weight)
    requires start <= 1 && start <= pos <= |s| <= pos + 1 && (pos - start) % 2 == 0
    requires t == (if start == 1 then Weighted(s[0], Flip(w)) else 0) + (if pos < |s| then Weighted(s[pos], w) else 0)
    ensures Sum(s[start..pos], w) + t == Sum(s, WeightAt(w, start))
  {
    if start == 1 { OddStart(s, w); }
    if pos < |s| {
      assert s[start..] == s[start..pos] + [s[pos]];
      SumAppend(s[start..pos], [s[pos]], w);
    } else {
      assert s[start..] == s[start..pos];
    }
    assert s[0..] == s;
  }

  /** The end of versions 2 and 3: fold to 16 bits, then swap if the start address was odd. */
  function Finish(sum: u32, odd: bool): u16 {
    var folded := Fold(Fold(sum));
    if odd then Swap(folded) else folded
  }

  lemma {:induction false} FinishNorm(sum: u32, odd: bool)
    ensures Finish(sum, odd) == if odd then Swap(Norm(sum)) else Norm(sum)
  {
    hide Norm, Swap, Fold;
    FoldTwice(sum);
  }

  lemma SwapHost(x: u16, w: Weight)
    ensures Swap(HostOrder(x, Flip(w))) == HostOrder(x, w)
  {
    SwapTwice(x);
  }

  lemma EmptyHost(w: Weight)
    ensures HostOrder(InternetSum([]), w) == Swap(HostOrder(InternetSum([]), w)) == 0
  {
  }

  /** The swap undoes the other weight of an odd start. */
  lemma FinishSum(sum: u32, odd: bool, start: nat, s: seq<byte>, w: Weight)
    requires Same(sum, Sum(s, WeightAt(w, start)))
    requires odd == (start % 2 == 1) || s == []
    ensures Finish(sum, odd) == StandardSum(s, w)
  {
    hide Same, Norm, Sum, InternetSum, Swap, HostOrder, Finish;
    var u := WeightAt(w, start);
    FinishNorm(sum, odd);
    NormOfSame(sum, Sum(s, u));
    HostSum(s, u);
    if s == [] {
      EmptyHost(u);
      EmptyHost(w);
    } else {
      SwapHost(InternetSum(s), w);
    }
  }

  /** Version 1: network order, then lwip_htons. */
  method StandardChksum1(s: seq<byte>, w: Weight) returns (r: u16)
    requires |s| <= MAX_LEN
    ensures r == StandardSum(s, w)
  {
    hide Norm, Same, Sum, InternetSum;
    SumEmpty(0x100);
    var acc: u32 := 0;
    var i := 0;
    while |s| - i > 1
      invariant 0 <= i <= |s| && i % 2 == 0
      invariant acc == Sum(s[..i], 0x100)
    {
      Load16Sum(s, 0, i, 0x100);
      RangeFits(s, 0, i + 2, 0x100);
      acc := Add32(acc, Word(s[i], s[i + 1]));
      i := i + 2;
    }
    EndBytes(s, 0, i, if i < |s| then Weighted(s[i], 0x100) else 0, 0x100);
    RangeFits(s, 0, |s|, 0x100);
    assert s[0..|s|] == s;
    if |s| - i > 0 {
      acc := Add32(acc, Word(s[i], 0));
    }
    FoldTwice(acc);
    acc := Fold(acc);
    if acc / 0x1_0000 != 0 {
      acc := Fold(acc);
    }
    SumIsInternetSum(s);
    r := HostOrder(acc, w);
  }

  /** Version 2, the one compiled in: two bytes at a time from any start address. */
  method StandardChksum2(s: seq<byte>, addr: nat, w: Weight) returns (r: u16)
    requires |s| <= MAX_LEN
    ensures r == StandardSum(s, w)
  {
    hide Norm, Same, Sum, InternetSum, Finish, StandardSum, Load16, Fold;
    var t: u32 := 0;
    var sum: u32 := 0;
    var odd := addr % 2 == 1;
    var pos := 0;
    if odd && |s| > 0 {
      t := Weighted(s[0], Flip(w));
      pos := 1;
    }
    ghost var start := pos;
    SumEmpty(w);
    assert s[start..start] == [];
    while |s| - pos > 1
      invariant start <= pos <= |s| && (pos - start) % 2 == 0
      invariant sum == Sum(s[start..pos], w)
    {
      Load16Sum(s, start, pos, w);
      RangeFits(s, start, pos + 2, w);
      sum := Add32(sum, Load16(s, pos, w));
      pos := pos + 2;
    }
    if |s| - pos > 0 {
      t := t + Weighted(s[pos], w);
    }
    EndBytes(s, start, pos, t, w);
    RangeFits(s, 0, |s|, WeightAt(w, start));
    assert s[0..|s|] == s;
    sum := Add32(sum, t);
    SameSelf(sum);
    FinishSum(sum, odd, start, s, w);
    r := Finish(sum, odd);
  }

  /** 32-bit addition that adds the carry back in, as in versions 3's ping and pong. */
  function AddCarry(a: u32, b: u32): (r: u32)
    ensures Same(r, a as int + b as int)
  {
    var sum := Add32(a, b);
    if sum < a then sum + 1 else sum
  }

  /** Version 3: eight bytes at a time with end-around carries, from any start address. */
  method StandardChksum3(s: seq<byte>, addr: nat, w: Weight) returns (r: u16)
    ensures r == StandardSum(s, w)
  {
    hide Norm, Same, Sum, InternetSum, Finish, StandardSum, Load16, Fold;
    var t: u32 := 0;
    var sum: u32 := 0;
    var odd := addr % 2 == 1;
    var pos := 0;
    if odd && |s| > 0 {
      t := Weighted(s[0], Flip(w));
      pos := 1;
    }
    ghost var start := pos;
    SumEmpty(w);
    assert s[start..start] == [];
    if (addr + pos) % 4 != 0 && |s| - pos > 1 {
      Load16Sum(s, start, pos, w);
      sum := Load16(s, pos, w);
      pos := pos + 2;
    }
    SameSelf(sum);
    while |s| - pos > 7
      invariant start <= pos <= |s| && (pos - start) % 2 == 0
      invariant Same(sum, Sum(s[start..pos], w))
    {
      sum := AddWord(s, start, pos, sum, w);
      sum := AddWord(s, start, pos + 4, sum, w);
      pos := pos + 8;
    }
    SameFold(sum);
    SameTrans(Fold(sum), sum, Sum(s[start..pos], w));
    sum := Fold(sum);
    sum, pos := AddTail(s, start, pos, sum, w);
    if |s| - pos > 0 {
      t := t + Weighted(s[pos], w);
    }
    EndBytes(s, start, pos, t, w);
    SameSelf(t);
    SameAdd(sum, Sum(s[start..pos], w), t, t);
    sum := Add32(sum, t);
    FinishSum(sum, odd, start, s, w);
    r := Finish(sum, odd);
  }

  /** Version 3's second loop: at most three whole words remain, so nothing overflows. */
  method AddTail(s: seq<byte>, ghost start: nat, from: nat, folded: u32, w: Weight) returns (sum: u32, pos: nat)
    requires start <= from <= |s| <= from + 7 && (from - start) % 2 == 0
    requires folded <= 0x1_fffe && Same(folded, Sum(s[start..from], w))
    ensures start <= pos <= |s| <= pos + 1 && (pos - start) % 2 == 0
    ensures sum <= 0x1_fffe + 0xffff * 7 && Same(sum, Sum(s[start..pos], w))
  {
    hide Same, Sum, Load16;
    sum, pos := folded, from;
    while |s| - pos > 1
      invariant from <= pos <= |s| && (pos - start) % 2 == 0
      invariant sum + 0xffff * (|s| - pos) <= 0x1_fffe + 0xffff * 7
      invariant Same(sum, Sum(s[start..pos], w))
    {
      Load16Sum(s, start, pos, w);
      SameSelf(Load16(s, pos, w));
      SameAdd(sum, Sum(s[start..pos], w), Load16(s, pos, w), Load16(s, pos, w));
      sum := Add32(sum, Load16(s, pos, w));
      pos := pos + 2;
    }
  }

  /** One half of version 3's unrolled loop. */
  method AddWord(s: seq<byte>, ghost lo: nat, i: nat, sum: u32, w: Weight) returns (r: u32)
    requires lo <= i && i + 3 < |s| && (i - lo) % 2 == 0
    requires Same(sum, Sum(s[lo..i], w))
    ensures Same(r, Sum(s[lo..i + 4], w))
  {
    r := AddCarry(sum, Load32(s, i, w));
    Load32Sum(s, lo, i, w);
    ghost var x: nat :| Same(Load32(s, i, w), x) && Sum(s[lo..i + 4], w) == Sum(s[lo..i], w) + x;
    SameAdd(sum, Sum(s[lo..i], w), Load32(s, i, w), x);
    SameTrans(r, sum as int + Load32(s, i, w) as int, Sum(s[lo..i + 4], w));
  }

  /** struct pbuf: one buffer of a chain; q->len is 16 bits wide. */
  datatype Pbuf = Pbuf(payload: seq<byte>, addr: nat) {
    predicate Valid() {
      |payload| < 0x1_0000
    }
  }

  predicate ValidChain(chain: seq<Pbuf>) {
    forall q <- chain :: q.Valid()
  }

  /** The bytes of a chain, in order. */
  function ChainBytes(chain: seq<Pbuf>): seq<byte> {
    if chain == [] then [] else ChainBytes(chain[..|chain| - 1]) + chain[|chain| - 1].payload
  }

  function Scaled(x: nat, swapped: bool): nat {
    if swapped then 0x100 * x else x
  }

  /** What `acc` stands for while a chain is summed: `base` plus the bytes so far, swapped or not. */
  predicate Partial(acc: u32, swapped: bool, base: nat, bytes: seq<byte>, w: Weight) {
    && acc <= 0xffff
    && swapped == (|bytes| % 2 == 1)
    && Same(acc, Scaled(base + Sum(bytes, w), swapped))
  }

  /** One iteration of the loops of inet_chksum_pbuf and inet_cksum_pseudo_base. */
  function Accumulate(acc: u32, swapped: bool, payload: seq<byte>, w: Weight): (u32, bool) {
    var folded := Fold(Add32(acc, StandardSum(payload, w)));
    if |payload| % 2 != 0 then (Swap(folded), !swapped) else (folded, swapped)
  }

  lemma PartialStart(base: u16, w: Weight)
    ensures Partial(base, false, base, [], w)
  {
  }

  lemma {:induction false} AccumulateStep(acc: u32, swapped: bool, base: nat, bytes: seq<byte>, payload: seq<byte>,
                                          w: Weight)
    requires Partial(acc, swapped, base, bytes, w)
    ensures var (acc', swapped') := Accumulate(acc, swapped, payload, w);
            Partial(acc', swapped', base, bytes + payload, w)
  {
    hide Norm, Same, Sum, InternetSum, Swap, Fold, StandardSum, Scaled;
    var chunk := StandardSum(payload, w);
    var folded := Fold(Add32(acc, chunk));
    var whole := base + Sum(bytes + payload, w);
    SumAppend(bytes, payload, w);
    ChunkSame(payload, swapped, w);
    AddChunk(acc, chunk, base + Sum(bytes, w), Sum(payload, WeightAt(w, |bytes|)), swapped);
    if |payload| % 2 != 0 {
      SwapStep(folded, swapped, whole);
    }
  }

  lemma {:induction false} AddChunk(acc: u32, chunk: u16, x: nat, y: nat, swapped: bool)
    requires acc <= 0xffff && Same(acc, Scaled(x, swapped)) && Same(chunk, Scaled(y, swapped))
    ensures var folded := Fold(Add32(acc, chunk)); folded <= 0xffff && Same(folded, Scaled(x + y, swapped))
  {
    hide Same, Fold;
    var sum: nat := acc as int + chunk as int;
    SameAdd(acc, Scaled(x, swapped), chunk, Scaled(y, swapped));
    SameFold(sum);
    SameTrans(Fold(sum), sum, Scaled(x + y, swapped));
  }

  /** A chunk summed from its own start, against its place in the chain. */
  lemma ChunkSame(payload: seq<byte>, swapped: bool, w: Weight)
    ensures Same(StandardSum(payload, w),
                 Scaled(Sum(payload, if swapped then Flip(w) else w), swapped))
  {
    hide Norm, Same, Sum, InternetSum, HostOrder;
    HostSum(payload, w);
    SameNormed(Sum(payload, w));
    if swapped {
      SumFlip(payload, Flip(w));
      SameTrans(Norm(Sum(payload, w)), Sum(payload, w), 0x100 * Sum(payload, Flip(w)));
    }
  }

  /** Swapping the accumulator toggles its factor of 256, which is its own inverse modulo 65535. */
  lemma {:induction false} SwapStep(folded: u16, swapped: bool, whole: nat)
    requires Same(folded, Scaled(whole, swapped))
    ensures Same(Swap(folded), Scaled(whole, !swapped))
  {
    SameSwap(folded);
    SameTimes(folded, Scaled(whole, swapped));
    SameTrans(Swap(folded), 0x100 * folded as int, 0x100 * Scaled(whole, swapped));
    if swapped {
      assert 0x1_0000 * whole - whole == 0xffff * whole;
      SameTrans(Swap(folded), 0x1_0000 * whole, whole);
    }
  }

  /** The accumulator with its pending swap undone is the representative of the whole sum. */
  lemma {:induction false} PartialResult(acc: u32, swapped: bool, base: nat, bytes: seq<byte>, w: Weight)
    requires Partial(acc, swapped, base, bytes, w)
    ensures (if swapped then Swap(acc) else acc) == Norm(base + Sum(bytes, w))
  {
    var whole := base + Sum(bytes, w);
    if swapped {
      SwapStep(acc, true, whole);
      NormUnique(whole, Swap(acc));
    } else {
      NormUnique(whole, acc);
    }
  }

  /** The loop shared by inet_chksum_pbuf and inet_cksum_pseudo_base. */
  method SumChain(chain: seq<Pbuf>, start: u32, w: Weight) returns (acc: u32)
    requires ValidChain(chain)
    requires start <= 0xffff
    ensures acc == Norm(start + Sum(ChainBytes(chain), w))
  {
    acc := start;
    var swapped := false;
    PartialStart(start, w);
    hide Norm, Same, Sum, InternetSum, Swap, Fold, Partial, StandardSum;
    for i := 0 to |chain|
      invariant Partial(acc, swapped, start, ChainBytes(chain[..i]), w)
    {
      var q := chain[i];
      assert q.Valid();
      assert chain[..i + 1][..i] == chain[..i];
      AccumulateStep(acc, swapped, start, ChainBytes(chain[..i]), q.payload, w);
      var chunk := StandardChksum2(q.payload, q.addr, w);
      acc := Add32(acc, chunk);
      acc := Fold(acc);
      if |q.payload| % 2 != 0 {
        swapped := !swapped;
        acc := Swap(acc);
      }
    }
    assert chain[..|chain|] == chain;
    PartialResult(acc, swapped, start, ChainBytes(chain), w);
    if swapped {
      acc := Swap(acc);
    }
  }

  /**
   inet_chksum_pbuf: over a chain cut anywhere, odd lengths included, the
   checksum is that of the concatenated bytes.
   */
  method ChksumPbuf(chain: seq<Pbuf>, w: Weight) returns (r: u16)
    requires ValidChain(chain)
    ensures r == HostOrder(Inverted(InternetSum(ChainBytes(chain))), w)
  {
    hide Norm, Same, Sum, InternetSum;
    hide HostOrder;
    var acc := SumChain(chain, 0, w);
    HostSum(ChainBytes(chain), w);
    HostInverted(InternetSum(ChainBytes(chain)), w);
    r := Inverted(acc);
  }

  lemma HostInverted(x: u16, w: Weight)
    ensures Inverted(HostOrder(x, w)) == HostOrder(Inverted(x), w)
  {
    var hi, lo := x / 0x100, x % 0x100;
    assert 0xffff - x == (0xff - hi) * 0x100 + (0xff - lo);
    assert (0xffff - x) / 0x100 == 0xff - hi && (0xffff - x) % 0x100 == 0xff - lo;
  }

  /** The pseudo header of section 3.1 of RFC 793, in network order. */
  function PseudoHeader(src: seq<byte>, dst: seq<byte>, proto: byte, protoLen: u16): seq<byte> {
    src + dst + [0, proto] + Net16(protoLen)
  }

  lemma {:induction false} LoadHalves(ip: seq<byte>, w: Weight)
    requires |ip| == 4
    ensures var addr := Load32(ip, 0, w);
            addr % 0x1_0000 + addr / 0x1_0000 % 0x1_0000 == Load16(ip, 0, w) + Load16(ip, 2, w)
  {
    hide Load16;
  }

  /** Two 16-bit halves of an address, as the host loads it. */
  method AddressSum(ip: seq<byte>, w: Weight) returns (r: u32)
    requires |ip| == 4
    ensures r == Sum(ip, w) <= 0x1_fffe
  {
    SumEmpty(w);
    LoadHalves(ip, w);
    hide Sum, Load16, Load32;
    var addr := Load32(ip, 0, w);
    r := addr % 0x1_0000 + addr / 0x1_0000 % 0x1_0000;
    Load16Sum(ip, 0, 0, w);
    Load16Sum(ip, 0, 2, w);
    assert ip[0..4] == ip && ip[0..0] == [];
  }

  /**
   inet_chksum_pseudo with inet_cksum_pseudo_base: the checksum of the pseudo
   header followed by the bytes of the chain.
   */
  method ChksumPseudo(chain: seq<Pbuf>, proto: byte, protoLen: u16, src: seq<byte>, dst: seq<byte>, w: Weight)
    returns (r: u16)
    requires ValidChain(chain)
    requires |src| == 4 && |dst| == 4
    ensures r == HostOrder(Inverted(InternetSum(PseudoHeader(src, dst, proto, protoLen) + ChainBytes(chain))), w)
  {
    hide Norm, Same, Sum, InternetSum, Fold, HostOrder;
    var a := AddressSum(src, w);
    var b := AddressSum(dst, w);
    var acc := a + b;
    FoldTwice(acc);
    acc := Fold(acc);
    acc := Fold(acc);
    ghost var folded := acc;
    ghost var bytes := ChainBytes(chain);
    acc := SumChain(chain, acc, w);
    acc := Add32(acc, HostOrder(proto, w));
    acc := Add32(acc, HostOrder(protoLen, w));
    PseudoSum(src, dst, proto, protoLen, bytes, w);
    SameNormed(Sum(src, w) + Sum(dst, w));
    SameAdd(folded, Sum(src, w) + Sum(dst, w), Sum(bytes, w), Sum(bytes, w));
    ghost var chained := folded + Sum(bytes, w);
    SameNormed(chained);
    SameTrans(Norm(chained), chained, Sum(src, w) + Sum(dst, w) + Sum(bytes, w));
    ghost var rest: nat := HostOrder(proto, w) as int + HostOrder(protoLen, w) as int;
    SameAdd(Norm(chained), Sum(src, w) + Sum(dst, w) + Sum(bytes, w), rest, rest);
    ghost var whole := PseudoHeader(src, dst, proto, protoLen) + bytes;
    NormOfSame(acc, Sum(whole, w));
    FoldTwice(acc);
    HostSum(whole, w);
    HostInverted(InternetSum(whole), w);
    acc := Fold(acc);
    acc := Fold(acc);
    r := Inverted(acc);
  }

  lemma PseudoSum(src: seq<byte>, dst: seq<byte>, proto: byte, protoLen: u16, bytes: seq<byte>, w: Weight)
    requires |src| == 4 && |dst| == 4
    ensures Sum(PseudoHeader(src, dst, proto, protoLen) + bytes, w)
            == Sum(src, w) + Sum(dst, w) + HostOrder(proto, w) + HostOrder(protoLen, w) + Sum(bytes, w)
  {
    var tail := [0, proto] + Net16(protoLen);
    assert PseudoHeader(src, dst, proto, protoLen) == src + dst + tail;
    assert Load16(tail, 0, w) == HostOrder(proto, w) && Load16(tail, 2, w) == HostOrder(protoLen, w);
    SumEmpty(w);
    hide Sum, HostOrder, Load16, PseudoHeader;
    SumAppend(src + dst + tail, bytes, w);
    SumAppend(src + dst, tail, w);
    SumAppend(src, dst, w);
    Load16Sum(tail, 0, 0, w);
    Load16Sum(tail, 0, 2, w);
    assert tail[0..4] == tail && tail[0..0] == [];
  }
}
