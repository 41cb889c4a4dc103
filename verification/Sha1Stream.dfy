/**
 SHA1Init, SHA1Update and SHA1Final of src/sha1.c: data arrives in pieces, the
 incomplete block is buffered, the bit count is split over two 32-bit words.
 */
module Sha1Stream {
  import opened Sha1
  import opened Sha1Transform

  const TWO32: nat := 0x1_0000_0000
  const TWO64: nat := 0x1_0000_0000_0000_0000

  /** The length of the incomplete block. */
  function Rest(n: nat): (r: nat)
    ensures r < 64 && r <= n
  {
    n % 64
  }

  /** Arithmetic on uint32_t. */
  function Wrap32(x: nat): nat {
    x % TWO32
  }

  function Mod64(x: nat): nat {
    x % TWO64
  }

  /** The bit counter modulo 2^64, in two words. */
  predicate Counts(count0: nat, count1: nat, len: nat) {
    count0 < TWO32 && count1 < TWO32 && count1 * TWO32 + count0 == Mod64(8 * len)
  }

  lemma ModSplit(x: nat) returns (q: nat)
    ensures x == q * TWO64 + Mod64(x) && Mod64(x) < TWO64
  {
    q := x / TWO64;
  }

  lemma ModIs(x: nat, q: nat, r: nat)
    requires x == q * TWO64 + r && r < TWO64
    ensures Mod64(x) == r
  {
  }

  lemma Aligned(n: nat, q: nat, c: nat)
    requires n == 64 * q + c
    ensures n % 64 == c % 64
  {
  }

  /** The carry detection and the two additions of SHA1Update. */
  function AddCount(count0: nat, count1: nat, len: nat): (nat, nat) {
    var c0 := (count0 + 8 * len % TWO32) % TWO32;
    var c1 := if c0 < count0 then (count1 + 1) % TWO32 else count1;
    (c0, (c1 + len / 0x2000_0000) % TWO32)
  }

  lemma ShiftSplit(len: nat)
    ensures 8 * len == len / 0x2000_0000 * TWO32 + 8 * len % TWO32
  {
    var q, r := len / 0x2000_0000, len % 0x2000_0000;
    assert len == q * 0x2000_0000 + r;
    assert 8 * len == q * TWO32 + 8 * r;
  }

  /** The comparison with the old value detects the carry: c0 < count0 exactly when the sum wrapped. */
  lemma LowWord(count0: nat, low: nat)
    requires count0 < TWO32 && low < TWO32
    ensures var c0 := (count0 + low) % TWO32;
            count0 + low == c0 + (if c0 < count0 then TWO32 else 0)
  {
  }

  lemma AddCountSum(count0: nat, count1: nat, len: nat) returns (k: nat)
    requires count0 < TWO32 && count1 < TWO32 && len < TWO32
    ensures var (c0, c1) := AddCount(count0, count1, len);
            c0 < TWO32 && c1 < TWO32 && c1 * TWO32 + c0 + k * TWO64 == count1 * TWO32 + count0 + 8 * len
  {
    var low, high := 8 * len % TWO32, len / 0x2000_0000;
    ShiftSplit(len);
    LowWord(count0, low);
    var c0 := (count0 + low) % TWO32;
    var carry := if c0 < count0 then 1 else 0;
    var total := count1 + carry + high;
    k := total / TWO32;
    assert total % TWO32 == ((count1 + carry) % TWO32 + high) % TWO32;
  }

  lemma {:induction false} AddCountCounts(count0: nat, count1: nat, n: nat, len: nat)
    requires Counts(count0, count1, n) && len < TWO32
    ensures var (c0, c1) := AddCount(count0, count1, len); Counts(c0, c1, n + len)
  {
    var k := AddCountSum(count0, count1, len);
    hide AddCount, Mod64;
    var (c0, c1) := AddCount(count0, count1, len);
    var q := ModSplit(8 * n);
    ModIs(8 * (n + len), q + k, c1 * TWO32 + c0);
  }

  /** The buffered position is read off the low word of the counter. */
  lemma BufferedPosition(count0: nat, count1: nat, n: nat)
    requires Counts(count0, count1, n)
    ensures count0 / 8 % 64 == Rest(n)
  {
    hide Mod64;
    var q := ModSplit(8 * n);
    var c := n - q * 0x2000_0000_0000_0000 - count1 * 0x2000_0000;
    assert 8 * c == count0;
    Aligned(n, q * 0x80_0000_0000_0000 + count1 * 0x80_0000, c);
  }

  lemma WholeBlocks(n: nat)
    ensures (n - Rest(n)) % 64 == 0
  {
  }

  /** Hashing ignores the incomplete block, so the state may lag behind the message. */
  lemma {:induction false} HashWhole(m: seq<Octet>)
    ensures HashBlocks(H0, m) == HashBlocks(H0, m[..|m| - Rest(|m|)])
  {
    hide *;
    WholeBlocks(|m|);
    var n := |m| - Rest(|m|);
    assert m == m[..n] + m[n..];
    HashBlocksTail(H0, m[..n], m[n..]);
  }

  /** Completing the buffered block with new data. */
  lemma {:induction false} HashCompleted(m: seq<Octet>, data: seq<Octet>)
    requires Rest(|m|) + |data| == 64
    ensures HashBlocks(H0, m + data) == Compress(HashBlocks(H0, m), m[|m| - Rest(|m|)..] + data)
  {
    hide *;
    WholeBlocks(|m|);
    var n := |m| - Rest(|m|);
    HashWhole(m);
    HashBlocksSnoc(H0, m[..n], m[n..] + data);
    assert m + data == m[..n] + (m[n..] + data);
  }

  /** Data that does not complete a block. */
  lemma {:induction false} HashUnchanged(m: seq<Octet>, data: seq<Octet>)
    requires Rest(|m|) + |data| < 64
    ensures HashBlocks(H0, m + data) == HashBlocks(H0, m)
  {
    hide *;
    RestMore(|m|, |data|);
    var n := |m| - Rest(|m|);
    HashWhole(m);
    HashWhole(m + data);
    assert (m + data)[..n] == m[..n];
  }

  /** The loop counter cannot wrap: it stays aligned with the blocks of the message. */
  lemma NoWrap(n: nat, i: nat, len: nat)
    requires Rest(n + i) == 0 && i <= len && Rest(n) + len < TWO32
    ensures Wrap32(i + 63) == i + 63
    ensures i + 63 < len ==> Wrap32(i + 64) == i + 64
    ensures Rest(n + (i + 64)) == 0
  {
    var q, j := n / 64, n % 64;
    assert n == 64 * q + j;
    assert (n + i) % 64 == (j + i) % 64;
  }

  lemma NoWrapBelow(x: nat)
    ensures x < TWO32 ==> Wrap32(x) == x
  {
  }

  /** The first test of SHA1Update: a sum that wraps is below 63, so the branch is taken only without a wrap. */
  lemma TestWraps(j: nat, len: nat)
    requires j < 64 && len < TWO32
    ensures Wrap32(j + len) == if j + len < TWO32 then j + len else j + len - TWO32
    ensures Rest(j) == j
    ensures 63 < j + len < TWO32 ==> Rest(j + (64 - j)) == 0
  {
  }

  /** Where the block loop of SHA1Update leaves its index. */
  function LoopEnd(j: nat, i: nat, len: nat): (r: nat)
    requires 0 < i <= len && Rest(j) + len < TWO32 && Rest(j + i) == 0
    ensures i <= r <= len < r + 64 && Rest(j + r) == 0
    decreases len - i
  {
    NoWrap(j, i, len);
    if Wrap32(i + 63) < len then LoopEnd(j, Wrap32(i + 64), len) else i
  }

  /** The last copy of SHA1Update from buffered position j: where in the buffer it starts, and its length. */
  function LastCopy(j: nat, len: nat): (nat, nat)
    requires j < 64 && len < TWO32
  {
    TestWraps(j, len);
    if Wrap32(j + len) > 63 then (0, len - LoopEnd(j, 64 - j, len)) else (j, len)
  }

  /** The index after the loop is the only one that is aligned and leaves less than a block. */
  lemma LoopEndIs(n: nat, len: nat, i: nat)
    requires 63 < Rest(n) + len < TWO32 && i <= len < i + 64 && Rest(n + i) == 0
    ensures LastCopy(Rest(n), len) == (0, len - i)
  {
    var j := Rest(n);
    TestWraps(j, len);
    var e := LoopEnd(j, 64 - j, len);
    hide LoopEnd, Wrap32;
    assert (n + i) % 64 == (j + i) % 64;
  }

  lemma SmallCopy(j: nat, len: nat)
    requires j < 64 && j + len < TWO32
    ensures Wrap32(j + len) <= 63 ==> LastCopy(j, len) == (j, len)
  {
  }

  predicate CopiesInside(j: nat, len: nat)
    requires j < 64 && len < TWO32
  {
    LastCopy(j, len).0 + LastCopy(j, len).1 <= 64
  }

  /** SHA1Update stays inside its buffer if and only if buffered position and length fit 32 bits together. */
  lemma InsideIffFits(j: nat, len: nat)
    requires j < 64 && len < TWO32
    ensures CopiesInside(j, len) <==> j + len < TWO32
  {
    TestWraps(j, len);
    hide Rest, Wrap32;
  }

  /** The first length that fails: with one byte buffered, 2^32 - 1 more are copied behind it. */
  lemma LongestUpdateFails()
    ensures LastCopy(1, 0xffff_ffff) == (1, 0xffff_ffff) && !CopiesInside(1, 0xffff_ffff)
  {
    TestWraps(1, 0xffff_ffff);
    hide Rest, Wrap32;
  }

  /** How the buffered position moves. */
  lemma RestMore(n: nat, len: nat)
    ensures Rest(n) + len < 64 ==> Rest(n + len) == Rest(n) + len
    ensures Rest(n) + len == 64 ==> Rest(n + len) == 0
  {
  }

  /** Octet i of the length field, taken from the counter as SHA1Final does. */
  function CountOctet(count0: nat, count1: nat, i: nat): Octet
    requires count0 < TWO32 && count1 < TWO32 && i < 8
  {
    var n := if i >= 4 then count0 else count1;
    if i % 4 == 0 then LowOctet(n / 0x100_0000)
    else if i % 4 == 1 then LowOctet(n / 0x1_0000)
    else if i % 4 == 2 then LowOctet(n / 0x100)
    else LowOctet(n)
  }

  /** The two words are the halves of the 64-bit length field. */
  lemma CountHalves(count0: nat, count1: nat, n: nat)
    requires Counts(count0, count1, n)
    ensures count0 == 8 * n % TWO32 && count1 == 8 * n / TWO32 % TWO32
  {
    hide Mod64;
    var q := ModSplit(8 * n);
    var high := q * TWO32 + count1;
    assert 8 * n == high * TWO32 + count0;
    assert 8 * n / TWO32 == high;
    assert high % TWO32 == count1;
  }

  /** Four octets of the field are one word of the counter. */
  lemma CountQuad(count0: nat, count1: nat, s: seq<Octet>, g: nat)
    requires count0 < TWO32 && count1 < TWO32 && |s| == 8 && g < 2
    requires forall i :: 0 <= i < 8 ==> s[i] == CountOctet(count0, count1, i)
    ensures s[4 * g..4 * g + 4] == Octets32(if g == 0 then count1 else count0)
  {
    CountOctets(count0, count1, g);
    hide CountOctet, Octets32, LowOctet;
    var i := 4 * g;
    assert s[i..i + 4] == [s[i], s[i + 1], s[i + 2], s[i + 3]];
  }

  lemma CountOctets(count0: nat, count1: nat, g: nat)
    requires count0 < TWO32 && count1 < TWO32 && g < 2
    ensures Octets32(if g == 0 then count1 else count0) ==
      [CountOctet(count0, count1, 4 * g), CountOctet(count0, count1, 4 * g + 1),
       CountOctet(count0, count1, 4 * g + 2), CountOctet(count0, count1, 4 * g + 3)]
  {
    hide LowOctet;
  }

  lemma {:induction false} CountField(count0: nat, count1: nat, n: nat, s: seq<Octet>)
    requires Counts(count0, count1, n) && |s| == 8
    requires forall i :: 0 <= i < 8 ==> s[i] == CountOctet(count0, count1, i)
    ensures s == LengthField(8 * n)
  {
    CountHalves(count0, count1, n);
    hide Counts, CountOctet, Octets32;
    CountQuad(count0, count1, s, 0);
    CountQuad(count0, count1, s, 1);
    assert s == s[0..4] + s[4..8];
  }

  /** The padding loop stops exactly after ZeroPad zeros. */
  lemma PadStops(len: nat, k: nat)
    requires k <= ZeroPad(len)
    ensures Rest(len + 1 + k) == 56 <==> k == ZeroPad(len)
  {
  }

  /** Octet i of the digest, taken from the state as SHA1Final does. */
  function StateOctet(w: Word, i: nat): Octet {
    if i % 4 == 0 then ((w >> 24) & 0xff) as Octet
    else if i % 4 == 1 then ((w >> 16) & 0xff) as Octet
    else if i % 4 == 2 then ((w >> 8) & 0xff) as Octet
    else (w & 0xff) as Octet
  }

  lemma StateWord(w: Word, i: nat)
    requires i < 5
    ensures WordOctets(w) ==
      [StateOctet(w, 4 * i), StateOctet(w, 4 * i + 1), StateOctet(w, 4 * i + 2), StateOctet(w, 4 * i + 3)]
  {
  }

  lemma {:induction false} StateQuad(s: seq<Word>, d: seq<Octet>, g: nat)
    requires |s| == 5 && |d| == 20 && g < 5
    requires forall i :: 0 <= i < 20 ==> d[i] == StateOctet(s[i / 4], i)
    ensures d[4 * g..4 * g + 4] == WordOctets(s[g])
  {
    hide StateOctet, WordOctets;
    StateWord(s[g], g);
    var i := 4 * g;
    assert s[i / 4] == s[g] && s[(i + 1) / 4] == s[g] && s[(i + 2) / 4] == s[g] && s[(i + 3) / 4] == s[g];
    assert d[i..i + 4] == [d[i], d[i + 1], d[i + 2], d[i + 3]];
  }

  lemma {:induction false} StateField(s: seq<Word>, d: seq<Octet>)
    requires |s| == 5 && |d| == 20
    requires forall i :: 0 <= i < 20 ==> d[i] == StateOctet(s[i / 4], i)
    ensures d == RegsOctets(RegsOf(s))
  {
    hide StateOctet, WordOctets;
    StateQuad(s, d, 0);
    StateQuad(s, d, 1);
    StateQuad(s, d, 2);
    StateQuad(s, d, 3);
    StateQuad(s, d, 4);
    assert d == d[0..4] + d[4..8] + d[8..12] + d[12..16] + d[16..20];
  }

  /** The buffer starts with the incomplete block of the message. */
  predicate Buffered(buffer: seq<Octet>, m: seq<Octet>) {
    Rest(|m|) <= |buffer| && buffer[..Rest(|m|)] == m[|m| - Rest(|m|)..]
  }

  /** Copying data behind the buffered part. */
  lemma BufferMore(old_: seq<Octet>, buffer: seq<Octet>, m: seq<Octet>, rest: seq<Octet>, j: nat)
    requires |old_| == |buffer| == 64 && j == Rest(|m|) && j + |rest| < 64
    requires Buffered(old_, m) && buffer[..j] == old_[..j] && buffer[j..j + |rest|] == rest
    ensures Buffered(buffer, m + rest)
  {
    hide Rest;
    RestMore(|m|, |rest|);
    var n, k := |m + rest|, j + |rest|;
    assert buffer[..k] == buffer[..j] + buffer[j..k];
    assert (m + rest)[n - k..] == m[|m| - j..] + rest;
  }

  lemma EmptyBuffer(buffer: seq<Octet>, m: seq<Octet>)
    ensures Rest(|m|) == 0 ==> Buffered(buffer, m)
  {
  }

  class Context {
    const littleEndian: bool
    const state: array<Word>
    var count0: nat
    var count1: nat
    const buffer: array<Octet>
    ghost var message: seq<Octet>

    /** The context stands for `message`: its whole blocks are hashed, the rest is buffered. */
    ghost predicate Valid()
      reads this, state, buffer
    {
      && state.Length == 5 && buffer.Length == 64
      && Counts(count0, count1, |message|)
      && RegsOf(state[..]) == HashBlocks(H0, message)
      && Buffered(buffer[..], message)
    }

    /** SHA1Init. */
    constructor (littleEndian: bool)
      ensures Valid() && message == [] && fresh(state) && fresh(buffer)
    {
      this.littleEndian := littleEndian;
      state := new Word[5];
      buffer := new Octet[64];
      count0, count1 := 0, 0;
      message := [];
      new;
      state[0], state[1], state[2], state[3], state[4] := 0x67452301, 0xEFCDAB89, 0x98BADCFE, 0x10325476, 0xC3D2E1F0;
    }

    /** memcpy(&buffer[j], part, |part|). */
    method Fill(j: nat, part: seq<Octet>)
      requires buffer.Length == 64 && j + |part| <= 64
      modifies buffer
      ensures buffer[..j] == old(buffer[..j]) && buffer[j..j + |part|] == part
    {
      for k := 0 to |part|
        invariant buffer[..j] == old(buffer[..j])
        invariant forall x :: 0 <= x < k ==> buffer[j + x] == part[x]
      {
        buffer[j + k] := part[k];
      }
    }

    /** The loop of SHA1Update over the whole blocks that are left after position start. */
    method HashBlocksOf(start: nat, data: seq<Octet>) returns (i: nat)
      requires state.Length == 5 && 0 < start <= |data| && Rest(|message|) + |data| < TWO32
      requires Rest(|message| + start) == 0
      requires RegsOf(state[..]) == HashBlocks(H0, message + data[..start])
      modifies state
      ensures i <= |data| < i + 64 && Rest(|message| + i) == 0
      ensures RegsOf(state[..]) == HashBlocks(H0, message + data[..i])
    {
      hide HashBlocks, RegsOf, Compress, Rest, Wrap32;
      i := start;
      while Wrap32(i + 63) < |data|
        invariant 0 < i <= |data| && Rest(|message| + i) == 0
        invariant RegsOf(state[..]) == HashBlocks(H0, message + data[..i])
        decreases |data| - i
      {
        NoWrap(|message|, i, |data|);
        ghost var m := message + data[..i];
        assert m[|m|..] + data[i..i + 64] == data[i..i + 64];
        HashCompleted(m, data[i..i + 64]);
        assert m + data[i..i + 64] == message + data[..i + 64];
        Transform(littleEndian, state, data[i..i + 64]);
        i := Wrap32(i + 64);
      }
      NoWrap(|message|, i, |data|);
    }

    /** The branch of SHA1Update that completes at least one block; returns how much data it used. */
    method HashData(j: nat, data: seq<Octet>) returns (i: nat)
      requires state.Length == 5 && buffer.Length == 64
      requires j == Rest(|message|) && 63 < j + |data| < TWO32
      requires RegsOf(state[..]) == HashBlocks(H0, message)
      requires Buffered(buffer[..], message)
      modifies state, buffer
      ensures i <= |data| < i + 64 && Rest(|message| + i) == 0
      ensures RegsOf(state[..]) == HashBlocks(H0, message + data[..i])
    {
      RestMore(|message|, 64 - j);
      hide HashBlocks, RegsOf, Compress, Rest;
      i := 64 - j;
      Fill(j, data[..i]);
      assert buffer[..] == buffer[..j] + buffer[j..64];
      HashCompleted(message, data[..i]);
      Transform(littleEndian, state, buffer[..]);
      i := HashBlocksOf(i, data);
    }

    /** The counter part of SHA1Update. */
    method Count(len: nat)
      requires Counts(count0, count1, |message|) && len < TWO32
      modifies `count0, `count1
      ensures Counts(count0, count1, |message| + len)
    {
      var j := count0;
      AddCountCounts(count0, count1, |message|, len);
      hide Counts;
      count0 := (count0 + 8 * len % TWO32) % TWO32;
      if count0 < j {
        count1 := (count1 + 1) % TWO32;
      }
      count1 := (count1 + len / 0x2000_0000) % TWO32;
    }

    /** The last memcpy of SHA1Update; m is the part of the message already hashed or buffered. */
    method Keep(k: nat, ghost m: seq<Octet>, rest: seq<Octet>)
      requires buffer.Length == 64 && k == Rest(|m|) && k + |rest| < 64
      requires Buffered(buffer[..], m)
      modifies buffer
      ensures HashBlocks(H0, m + rest) == HashBlocks(H0, m)
      ensures Buffered(buffer[..], m + rest)
    {
      hide *;
      ghost var was := buffer[..];
      HashUnchanged(m, rest);
      Fill(k, rest);
      BufferMore(was, buffer[..], m, rest, k);
    }

    /** The hashing and buffering part of SHA1Update, from buffered position j. */
    method Absorb(j: nat, data: seq<Octet>) returns (ghost copy: (nat, nat))
      requires state.Length == 5 && buffer.Length == 64
      requires j == Rest(|message|) && j + |data| < TWO32
      requires RegsOf(state[..]) == HashBlocks(H0, message)
      requires Buffered(buffer[..], message)
      modifies state, buffer
      ensures RegsOf(state[..]) == HashBlocks(H0, message + data)
      ensures Buffered(buffer[..], message + data)
      ensures copy == LastCopy(j, |data|)
    {
      NoWrapBelow(j + |data|);
      copy := LastCopy(j, |data|);
      SmallCopy(j, |data|);
      hide *;
      if Wrap32(j + |data|) > 63 {
        var i := HashData(j, data);
        ghost var m := message + data[..i];
        assert m + data[i..] == message + data;
        EmptyBuffer(buffer[..], m);
        LoopEndIs(|message|, |data|, i);
        assert copy == (0, |data[i..]|);
        Keep(0, m, data[i..]);
      } else {
        assert copy == (j, |data|);
        Keep(j, message, data);
      }
    }

    /** SHA1Update, for every length whose copies stay inside the buffer. */
    method Update(data: seq<Octet>)
      requires Valid() && |data| < TWO32 && CopiesInside(Rest(|message|), |data|)
      modifies this, state, buffer
      ensures Valid() && message == old(message) + data
    {
      var j := count0;
      BufferedPosition(count0, count1, |message|);
      InsideIffFits(Rest(|message|), |data|);
      hide Counts, Buffered, HashBlocks, RegsOf, Rest, CopiesInside;
      Count(|data|);
      ghost var copy := Absorb(j / 8 % 64, data);
      message := message + data;
    }

    /** finalcount: the message length before padding. */
    method FinalCount() returns (finalcount: seq<Octet>)
      requires Counts(count0, count1, |message|)
      ensures finalcount == LengthField(8 * |message|)
    {
      finalcount := [];
      hide LengthField, CountOctet;
      for i := 0 to 8
        invariant |finalcount| == i
        invariant forall k :: 0 <= k < i ==> finalcount[k] == CountOctet(count0, count1, k)
      {
        finalcount := finalcount + [CountOctet(count0, count1, i)];
      }
      CountField(count0, count1, |message|, finalcount);
    }

    /** One 0x80 octet, then zeros up to eight octets before the end of a block. */
    method Pad()
      requires Valid()
      modifies this, state, buffer
      ensures Valid() && message == old(message) + [0x80] + Zeros(ZeroPad(|old(message)|))
    {
      hide HashBlocks, RegsOf, Counts, Buffered, Zeros, ZeroPad, Rest, CopiesInside;
      ghost var m, k := message, 0;
      InsideIffFits(Rest(|message|), 1);
      Update([0x80]);
      ZerosStart();
      assert message == m + [0x80] + Zeros(0);
      PadPosition();
      PadStops(|m|, k);
      while count0 / 8 % 64 * 8 != 448
        invariant Valid() && k <= ZeroPad(|m|) && message == m + [0x80] + Zeros(k)
        invariant count0 / 8 % 64 == Rest(|message|)
        decreases ZeroPad(|m|) - k
      {
        PadStops(|m|, k);
        InsideIffFits(Rest(|message|), 1);
        Update([0]);
        ZerosMore(k);
        k := k + 1;
        assert message == m + [0x80] + Zeros(k);
        PadPosition();
      }
      PadStops(|m|, k);
    }

    lemma PadPosition()
      requires Valid()
      ensures count0 / 8 % 64 == Rest(|message|)
    {
      BufferedPosition(count0, count1, |message|);
    }

    /** SHA1Final: the digest of everything absorbed since SHA1Init; the context is wiped. */
    method Final() returns (digest: seq<Octet>)
      requires Valid()
      modifies this, state, buffer
      ensures digest == Digest(old(message))
      ensures count0 == 0 && count1 == 0
      ensures forall i :: 0 <= i < 5 ==> state[i] == 0
      ensures forall i :: 0 <= i < 64 ==> buffer[i] == 0
    {
      ghost var m := message;
      var finalcount := FinalCount();
      Pad();
      InsideIffFits(Rest(|message|), 8);
      Update(finalcount);
      assert message == Padded(m);
      digest := ReadState();
      Wipe();
    }

    method ReadState() returns (digest: seq<Octet>)
      requires state.Length == 5
      ensures digest == RegsOctets(RegsOf(state[..]))
    {
      digest := [];
      hide StateOctet;
      for i := 0 to 20
        invariant |digest| == i
        invariant forall k :: 0 <= k < i ==> digest[k] == StateOctet(state[k / 4], k)
      {
        digest := digest + [StateOctet(state[i / 4], i)];
      }
      StateField(state[..], digest);
    }

    /** memset(context, 0, sizeof *context). */
    method Wipe()
      requires state.Length == 5 && buffer.Length == 64
      modifies this, state, buffer
      ensures count0 == 0 && count1 == 0
      ensures forall i :: 0 <= i < 5 ==> state[i] == 0
      ensures forall i :: 0 <= i < 64 ==> buffer[i] == 0
    {
      count0, count1 := 0, 0;
      forall i | 0 <= i < 5 { state[i] := 0; }
      forall i | 0 <= i < 64 { buffer[i] := 0; }
    }
  }

  /** The pieces in order, and the condition under which each one can be absorbed. */
  function Joined(pieces: seq<seq<Octet>>): seq<Octet> {
    if pieces == [] then [] else Joined(pieces[..|pieces| - 1]) + pieces[|pieces| - 1]
  }

  predicate Absorbable(pieces: seq<seq<Octet>>) {
    forall k :: 0 <= k < |pieces| ==> Rest(|Joined(pieces[..k])|) + |pieces[k]| < TWO32
  }

  /** SHA1Init, one SHA1Update per piece, SHA1Final: how the data is cut up does not matter. */
  method DigestOfPieces(littleEndian: bool, pieces: seq<seq<Octet>>) returns (digest: seq<Octet>)
    requires Absorbable(pieces)
    ensures digest == Digest(Joined(pieces))
  {
    hide Digest, Rest, Counts, HashBlocks, Buffered, RegsOf, CopiesInside;
    var context := new Context(littleEndian);
    assert pieces[..0] == [];
    for k := 0 to |pieces|
      invariant context.Valid() && fresh(context) && fresh(context.state) && fresh(context.buffer)
      invariant context.message == Joined(pieces[..k])
    {
      InsideIffFits(Rest(|context.message|), |pieces[k]|);
      context.Update(pieces[k]);
      assert pieces[..k + 1][..k] == pieces[..k];
    }
    assert pieces[..|pieces|] == pieces;
    digest := context.Final();
  }

  lemma ZerosStart()
    ensures Zeros(0) == []
  {
  }

  lemma ZerosMore(n: nat)
    ensures Zeros(n + 1) == Zeros(n) + [0]
  {
  }
}
