/**
 The Internet checksum of RFC 1071 and the arithmetic behind its fast forms.

 The reference, `InternetSum`, adds big-endian 16-bit words with an end-around
 carry after every addition. The fast forms add words in host order into a wide
 accumulator, fold once or twice and swap bytes. `Sum` covers both byte orders:
 `w` is the weight of the first byte of a 16-bit word in host memory.
 */
module InternetChecksum {
  import opened Bytes

  /** 1 on a little-endian host, 256 on a big-endian one. */
  type Weight = w: int | w == 1 || w == 0x100 witness 1

  function OnesAdd(a: u16, b: u16): u16 {
    if a + b <= 0xffff then a + b else a + b - 0xffff
  }

  /** RFC 1071, section 1: the ones' complement sum of the 16-bit words, the last one zero padded. */
  function InternetSum(s: seq<byte>): u16 {
    if |s| == 0 then 0
    else if |s| == 1 then Word(s[0], 0)
    else OnesAdd(Word(s[0], s[1]), InternetSum(s[2..]))
  }

  function Inverted(x: u16): u16 {
    0xffff - x
  }

  /** SWAP_BYTES_IN_WORD: swaps the low two bytes and drops the rest. */
  function Swap(x: u32): u16 {
    x % 0x100 * 0x100 + x / 0x100 % 0x100
  }

  /** A network-order value as the host holds it: lwip_htons. */
  function HostOrder(x: u16, w: Weight): u16 {
    if w == 0x100 then x else Swap(x)
  }

  /** FOLD_U32T. */
  function Fold(x: u32): u32 {
    x / 0x1_0000 + x % 0x1_0000
  }

  function Flip(w: Weight): Weight {
    0x101 - w
  }

  /** The weight of the byte `n` positions after one of weight `w`. */
  function WeightAt(w: Weight, n: nat): Weight {
    if n % 2 == 0 then w else Flip(w)
  }

  function Weighted(b: byte, w: Weight): nat {
    if w == 1 then b else b * 0x100
  }

  /** The exact, unfolded sum of the bytes in the host's byte order. */
  function Sum(s: seq<byte>, w: Weight): nat {
    if s == [] then 0 else Weighted(s[0], w) + Sum(s[1..], Flip(w))
  }

  /** Equal as ones' complement sums: congruent modulo 65535, and zero together. */
  predicate Same(a: nat, b: nat) {
    (a - b) % 0xffff == 0 && (a == 0 <==> b == 0)
  }

  /** The 16-bit representative of a sum. */
  function Norm(x: nat): u16 {
    if x == 0 then 0 else (x - 1) % 0xffff + 1
  }

  lemma NormUnique(x: nat, r: u16)
    requires Same(r, x)
    ensures r == Norm(x)
  {
  }

  lemma SameTrans(a: nat, b: nat, c: nat)
    requires Same(a, b) && Same(b, c)
    ensures Same(a, c)
  {
  }

  lemma SameAdd(a: nat, b: nat, c: nat, d: nat)
    requires Same(a, b) && Same(c, d)
    ensures Same(a + c, b + d)
  {
  }

  lemma SameSelf(x: nat)
    ensures Same(x, x)
  {
  }

  lemma SameNormed(x: nat)
    ensures Same(Norm(x), x)
  {
  }

  lemma SameFold(x: u32)
    ensures Same(Fold(x), x)
    ensures Fold(x) <= 0x1_fffe
    ensures x <= 0x1_fffe ==> Fold(x) <= 0xffff
  {
  }

  lemma NormOfSame(a: nat, b: nat)
    requires Same(a, b)
    ensures Norm(a) == Norm(b)
  {
    SameNormed(a);
    SameTrans(Norm(a), a, b);
    NormUnique(b, Norm(a));
  }

  lemma SameTimes(a: nat, b: nat)
    requires Same(a, b)
    ensures Same(0x100 * a, 0x100 * b)
  {
    var k := (a - b) / 0xffff;
    assert a - b == 0xffff * k;
    assert 0x100 * a - 0x100 * b == 0xffff * (0x100 * k);
  }

  lemma SameSwap(x: u16)
    ensures Same(Swap(x), 0x100 * x)
  {
    assert Swap(x) == x % 0x100 * 0x100 + x / 0x100;
    assert 0x100 * x - Swap(x) == 0xffff * (x / 0x100);
  }

  lemma SwapTwice(x: u16)
    ensures Swap(Swap(x)) == x
  {
  }

  lemma SumEmpty(w: Weight)
    ensures Sum([], w) == 0
  {
  }

  lemma {:induction false} SumAppend(a: seq<byte>, b: seq<byte>, w: Weight)
    ensures Sum(a + b, w) == Sum(a, w) + Sum(b, WeightAt(w, |a|))
  {
    if a == [] {
      assert a + b == b;
    } else {
      assert (a + b)[1..] == a[1..] + b;
      SumAppend(a[1..], b, Flip(w));
    }
  }

  /** Summing in the other byte order multiplies the sum by 256, modulo 65535. */
  lemma {:induction false} SumFlip(s: seq<byte>, w: Weight)
    ensures Same(0x100 * Sum(s, w), Sum(s, Flip(w)))
  {
    if s != [] {
      SumFlip(s[1..], Flip(w));
      assert Same(0x100 * Weighted(s[0], w), Weighted(s[0], Flip(w)));
      SameAdd(0x100 * Weighted(s[0], w), Weighted(s[0], Flip(w)),
              0x100 * Sum(s[1..], Flip(w)), Sum(s[1..], w));
    }
  }

  lemma PairSum(s: seq<byte>)
    requires |s| == 2
    ensures Sum(s, 0x100) == Word(s[0], s[1])
  {
    assert s[1..] == [s[1]] && s[1..][1..] == [];
    assert Sum(s[1..], 1) == Weighted(s[1], 1);
  }

  /** Reducing late is reducing at every addition. */
  lemma NormAdds(a: u16, b: nat)
    ensures Norm(a as nat + b) == OnesAdd(a, Norm(b))
  {
  }

  lemma ShortSum(s: seq<byte>)
    requires |s| < 2
    ensures Norm(Sum(s, 0x100)) == InternetSum(s)
  {
    assert |s| == 1 ==> s[1..] == [];
  }

  lemma {:induction false} SumIsInternetSum(s: seq<byte>)
    ensures Norm(Sum(s, 0x100)) == InternetSum(s)
  {
    hide Sum, Norm, OnesAdd;
    if |s| >= 2 {
      assert s == s[..2] + s[2..];
      SumAppend(s[..2], s[2..], 0x100);
      PairSum(s[..2]);
      SumIsInternetSum(s[2..]);
      NormAdds(Word(s[0], s[1]), Sum(s[2..], 0x100));
    } else {
      ShortSum(s);
    }
  }

  /** The folded host-order sum is the reference sum in host byte order. */
  lemma {:induction false} HostSum(s: seq<byte>, w: Weight)
    ensures Norm(Sum(s, w)) == HostOrder(InternetSum(s), w)
  {
    hide Same, Norm, Sum, InternetSum, Swap;
    SumIsInternetSum(s);
    if w == 1 {
      var r: nat := InternetSum(s);
      SumFlip(s, 0x100);
      SameSwap(r);
      SameNormed(Sum(s, 0x100));
      SameTimes(r, Sum(s, 0x100));
      SameTrans(Swap(r), 0x100 * r, 0x100 * Sum(s, 0x100));
      SameTrans(Swap(r), 0x100 * Sum(s, 0x100), Sum(s, 1));
      NormUnique(Sum(s, 1), Swap(r));
    }
  }

  lemma FoldTwice(x: u32)
    ensures Fold(Fold(x)) == Norm(x)
  {
    SameFold(x);
    SameFold(Fold(x));
    SameTrans(Fold(Fold(x)), Fold(x), x);
    NormUnique(x, Fold(Fold(x)));
  }

  lemma {:induction false} SumBound(s: seq<byte>, w: Weight)
    ensures Sum(s, w) <= 0xffff * (|s| / 2) + (if |s| % 2 == 0 then 0 else 0xff * w)
  {
    if |s| >= 2 {
      assert s == s[..2] + s[2..];
      SumAppend(s[..2], s[2..], w);
      assert Sum(s[..2], w) == Weighted(s[0], w) + Weighted(s[1], Flip(w));
      SumBound(s[2..], w);
    }
  }

  function AllOnes(n: nat): seq<byte> {
    seq(n, _ => 0xff)
  }

  lemma {:induction false} SumAllOnes(n: nat, w: Weight)
    ensures Sum(AllOnes(n), w) == 0xffff * (n / 2) + (if n % 2 == 0 then 0 else 0xff * w)
  {
    if n >= 2 {
      assert AllOnes(n) == [0xff, 0xff] + AllOnes(n - 2);
      SumAppend([0xff, 0xff], AllOnes(n - 2), w);
      assert Sum([0xff, 0xff], w) == 0xffff by {
        assert [0xff, 0xff][1..] == [0xff];
      }
      SumAllOnes(n - 2, w);
    } else if n == 1 {
      assert AllOnes(1)[1..] == [];
    }
  }

  /**
   The exact range of a 32-bit accumulator: it holds the sum of every buffer of
   `n` bytes, in either byte order, if and only if n <= 0x20002.
   */
  lemma AccumulatorRange(n: nat)
    ensures (forall s: seq<byte>, w: Weight | |s| == n :: Sum(s, w) < 0x1_0000_0000) <==> n <= 0x2_0002
  {
    if n <= 0x2_0002 {
      forall s: seq<byte>, w: Weight | |s| == n
        ensures Sum(s, w) < 0x1_0000_0000
      {
        SumBound(s, w);
      }
    } else {
      SumAllOnes(n, 0x100);
      assert |AllOnes(n)| == n && Sum(AllOnes(n), 0x100) >= 0x1_0000_0000;
    }
  }

  /** Storing the inverted sum in a zeroed aligned field makes the whole sum verify. */
  lemma StoredChecksumVerifies(s: seq<byte>, off: nat)
    requires off % 2 == 0 && off + 2 <= |s|
    requires s[off] == 0 && s[off + 1] == 0
    ensures InternetSum(Put(s, off, Net16(Inverted(InternetSum(s))))) == 0xffff
  {
    hide Sum, InternetSum, Put, Norm, Same;
    var c := Inverted(InternetSum(s));
    PutWordSum(s, off, c);
    SumIsInternetSum(s);
    ComplementCompletes(Sum(s, 0x100));
    SumIsInternetSum(Put(s, off, Net16(c)));
  }

  lemma ComplementCompletes(x: nat)
    ensures Norm(x + Inverted(Norm(x))) == 0xffff
  {
    SameNormed(x);
    NormUnique(x + Inverted(Norm(x)), 0xffff);
  }

  /** Overwriting a zero word at an even offset adds that word to the sum. */
  lemma {:induction false} PutWordSum(s: seq<byte>, off: nat, v: u16)
    requires off % 2 == 0 && off + 2 <= |s|
    requires s[off] == 0 && s[off + 1] == 0
    ensures Sum(Put(s, off, Net16(v)), 0x100) == Sum(s, 0x100) + v
  {
    hide Sum;
    ThreePartSum(s[..off], s[off..off + 2], s[off + 2..]);
    ThreePartSum(s[..off], Net16(v), s[off + 2..]);
    assert s == s[..off] + s[off..off + 2] + s[off + 2..];
    assert s[off..off + 2] == Net16(0);
    WordSum(v);
    WordSum(0);
  }

  lemma WordSum(v: u16)
    ensures Sum(Net16(v), 0x100) == v
  {
    assert Sum([v % 0x100], 1) == v % 0x100;
    assert Net16(v)[1..] == [v % 0x100];
  }

  lemma ThreePartSum(a: seq<byte>, b: seq<byte>, c: seq<byte>)
    requires |a| % 2 == 0 && |b| % 2 == 0
    ensures Sum(a + b + c, 0x100) == Sum(a, 0x100) + Sum(b, 0x100) + Sum(c, 0x100)
  {
    SumAppend(a + b, c, 0x100);
    SumAppend(a, b, 0x100);
  }
}
