/**
 SHA1Transform of src/sha1.c: the message schedule kept in sixteen words that are
 overwritten in a circle, and rounds that rotate the roles of the five variables
 instead of moving their values.
 */
module Sha1Transform {
  import opened Sha1

  /** A 32-bit load on a little-endian host. */
  function LittleWord(block: seq<Octet>, i: nat): Word
    requires |block| == 64 && i < 16
  {
    (block[4 * i] as Word) | ((block[4 * i + 1] as Word) << 8) |
    ((block[4 * i + 2] as Word) << 16) | ((block[4 * i + 3] as Word) << 24)
  }

  /** A 32-bit load on either kind of host. */
  function HostWord(little: bool, block: seq<Octet>, i: nat): Word
    requires |block| == 64 && i < 16
  {
    if little then LittleWord(block, i) else BlockWord(block, i)
  }

  /** blk0 on a little-endian host: reverses the bytes of a word. */
  function Reverse(l: Word): Word {
    (Rol(l, 24) & 0xFF00FF00) | (Rol(l, 8) & 0x00FF00FF)
  }

  lemma ReverseOctets(p: Word, q: Word, r: Word, s: Word)
    requires p <= 0xff && q <= 0xff && r <= 0xff && s <= 0xff
    ensures Reverse(p | (q << 8) | (r << 16) | (s << 24)) == (p << 24) | (q << 16) | (r << 8) | s
  {
  }

  lemma ReverseLoads(block: seq<Octet>, i: nat)
    requires |block| == 64 && i < 16
    ensures Reverse(LittleWord(block, i)) == BlockWord(block, i)
  {
    ReverseOctets(block[4 * i] as Word, block[4 * i + 1] as Word, block[4 * i + 2] as Word, block[4 * i + 3] as Word);
  }

  /** blk0 gives the word of the block on either kind of host. */
  function Blk0(little: bool, l: Word): Word {
    if little then Reverse(l) else l
  }

  lemma {:induction false} Blk0Loads(little: bool, block: seq<Octet>, i: nat)
    requires |block| == 64 && i < 16
    ensures Blk0(little, HostWord(little, block, i)) == BlockWord(block, i)
  {
    hide Reverse, LittleWord, BlockWord;
    ReverseLoads(block, i);
  }

  lemma ChForm(w: Word, x: Word, y: Word)
    ensures (w & (x ^ y)) ^ y == Ch(w, x, y)
  {
  }

  lemma MajForm(w: Word, x: Word, y: Word)
    ensures ((w | x) & y) | (w & x) == Maj(w, x, y)
  {
  }

  /** Before round t the circle holds the last sixteen words; from t on, words not yet converted. */
  ghost predicate Circle(little: bool, l: seq<Word>, block: seq<Octet>, t: nat) {
    && |l| == 16 && |block| == 64
    && (forall k :: 0 <= k < t && t - 16 <= k ==> l[k % 16] == W(block, k))
    && (forall j :: t <= j < 16 ==> l[j] == HostWord(little, block, j))
  }

  /** The four words that blk(i) reads are those of the schedule's definition. */
  lemma CircleReads(little: bool, l: seq<Word>, block: seq<Octet>, i: nat)
    requires Circle(little, l, block, i) && i >= 16
    ensures l[(i + 13) % 16] == W(block, i - 3) && l[(i + 8) % 16] == W(block, i - 8)
    ensures l[(i + 2) % 16] == W(block, i - 14) && l[i % 16] == W(block, i - 16)
  {
    hide W, HostWord;
    assert l[(i - 3) % 16] == W(block, i - 3) && (i - 3) % 16 == (i + 13) % 16;
    assert l[(i - 8) % 16] == W(block, i - 8) && (i - 8) % 16 == (i + 8) % 16;
    assert l[(i - 14) % 16] == W(block, i - 14) && (i - 14) % 16 == (i + 2) % 16;
    assert l[(i - 16) % 16] == W(block, i - 16) && (i - 16) % 16 == i % 16;
  }

  /** Writing word i over word i - 16 moves the circle on. */
  lemma CircleWrite(little: bool, l: seq<Word>, block: seq<Octet>, i: nat, w: Word)
    requires Circle(little, l, block, i) && w == W(block, i)
    ensures Circle(little, l[i % 16 := w], block, i + 1)
  {
    hide W, HostWord;
    assert forall k :: i - 15 <= k < i ==> k % 16 != i % 16;
  }

  /** blk0(i) and blk(i). */
  method Blk(little: bool, l: array<Word>, ghost block: seq<Octet>, i: nat) returns (w: Word)
    requires l.Length == 16 && Circle(little, l[..], block, i)
    modifies l
    ensures w == W(block, i) && Circle(little, l[..], block, i + 1)
  {
    hide Blk0, HostWord;
    if i < 16 {
      Blk0Loads(little, block, i);
      w := Blk0(little, l[i]);
    } else {
      CircleReads(little, l[..], block, i);
      w := Rol(l[(i + 13) % 16] ^ l[(i + 8) % 16] ^ l[(i + 2) % 16] ^ l[i % 16], 1);
    }
    CircleWrite(little, l[..], block, i, w);
    hide Circle;
    l[i % 16] := w;
    assert l[..] == old(l[..])[i % 16 := w];
  }

  /** The round macros R0 to R4 differ in a function of w, x, y and in a constant. */
  function MacroF(i: nat, w: Word, x: Word, y: Word): Word {
    if i < 20 then (w & (x ^ y)) ^ y
    else if i < 40 then w ^ x ^ y
    else if i < 60 then ((w | x) & y) | (w & x)
    else w ^ x ^ y
  }

  function MacroK(i: nat): Word {
    if i < 20 then 0x5A827999 else if i < 40 then 0x6ED9EBA1 else if i < 60 then 0x8F1BBCDC else 0xCA62C1D6
  }

  /** z += f + blk(i) + K + rol(v, 5). */
  function MacroSum(z: Word, f: Word, blk: Word, k: Word, r: Word): Word {
    z + (f + blk + k + r)
  }

  function Mix(i: nat, v: Word, w: Word, x: Word, y: Word, z: Word, blk: Word): Word {
    MacroSum(z, MacroF(i, w, x, y), blk, MacroK(i), Rol(v, 5))
  }

  lemma {:induction false} MacroFIsF(i: nat, w: Word, x: Word, y: Word)
    ensures MacroF(i, w, x, y) == F(i, w, x, y)
  {
    hide Ch, Maj;
    ChForm(w, x, y);
    MajForm(w, x, y);
  }

  lemma SumOrder(z: Word, f: Word, blk: Word, k: Word, r: Word)
    ensures MacroSum(z, f, blk, k, r) == Sum5(r, f, z, k, blk)
  {
  }

  lemma {:induction false} MixIsRound(i: nat, v: Word, w: Word, x: Word, y: Word, z: Word, blk: Word)
    ensures Mix(i, v, w, x, y, z, blk) == Round(Regs(v, w, x, y, z), i, blk).a
  {
    assert MacroK(i) == K(i);
    hide Rol, MacroF, F, K, MacroK, MacroSum, Sum5;
    MacroFIsF(i, w, x, y);
    SumOrder(z, F(i, w, x, y), blk, K(i), Rol(v, 5));
  }

  /** R0..R4 (v, w, x, y, z, i): afterwards z, v, w, x, y play the parts of a, b, c, d, e. */
  method Step(little: bool, i: nat, v: Word, w: Word, x: Word, y: Word, z: Word, l: array<Word>,
              ghost h: Regs, ghost block: seq<Octet>)
    returns (z': Word, w': Word)
    requires l.Length == 16 && Circle(little, l[..], block, i)
    requires Regs(v, w, x, y, z) == Rounds(h, block, i)
    modifies l
    ensures Circle(little, l[..], block, i + 1)
    ensures Regs(z', v, w', x, y) == Rounds(h, block, i + 1)
  {
    hide Circle, W, Mix, Rol;
    var blk := Blk(little, l, block, i);
    MixIsRound(i, v, w, x, y, z, blk);
    z' := Mix(i, v, w, x, y, z, blk);
    w' := Rol(w, 30);
  }

  /** Five rounds bring the names back to their own parts. */
  method FiveRounds(little: bool, i: nat, a: Word, b: Word, c: Word, d: Word, e: Word, l: array<Word>,
                    ghost h: Regs, ghost block: seq<Octet>)
    returns (a': Word, b': Word, c': Word, d': Word, e': Word)
    requires l.Length == 16 && Circle(little, l[..], block, i)
    requires Regs(a, b, c, d, e) == Rounds(h, block, i)
    modifies l
    ensures Circle(little, l[..], block, i + 5)
    ensures Regs(a', b', c', d', e') == Rounds(h, block, i + 5)
  {
    hide Circle, Rounds;
    a', b', c', d', e' := a, b, c, d, e;
    e', b' := Step(little, i, a', b', c', d', e', l, h, block);
    d', a' := Step(little, i + 1, e', a', b', c', d', l, h, block);
    c', e' := Step(little, i + 2, d', e', a', b', c', l, h, block);
    b', d' := Step(little, i + 3, c', d', e', a', b', l, h, block);
    a', c' := Step(little, i + 4, b', c', d', e', a', l, h, block);
  }

  function RegsOf(s: seq<Word>): Regs
    requires |s| == 5
  {
    Regs(s[0], s[1], s[2], s[3], s[4])
  }

  /** The eighty rounds, five at a time. */
  method EightyRounds(little: bool, h: Regs, block: seq<Octet>) returns (r: Regs)
    requires |block| == 64
    ensures r == Rounds(h, block, 80)
  {
    var l := new Word[16](i requires 0 <= i < 16 => HostWord(little, block, i));
    hide HostWord, Circle, Rounds;
    CircleStart(little, l[..], block);
    RoundsStart(h, block);
    var a, b, c, d, e := h.a, h.b, h.c, h.d, h.e;
    for g := 0 to 16
      invariant Circle(little, l[..], block, 5 * g) && Regs(a, b, c, d, e) == Rounds(h, block, 5 * g)
    {
      a, b, c, d, e := FiveRounds(little, 5 * g, a, b, c, d, e, l, h, block);
    }
    r := Regs(a, b, c, d, e);
  }

  lemma RoundsStart(h: Regs, block: seq<Octet>)
    requires |block| == 64
    ensures Rounds(h, block, 0) == h
  {
  }

  /** SHA1Transform. */
  method Transform(little: bool, state: array<Word>, block: seq<Octet>)
    requires state.Length == 5 && |block| == 64
    modifies state
    ensures RegsOf(state[..]) == Compress(RegsOf(old(state[..])), block)
  {
    hide Rounds, Plus;
    var r := EightyRounds(little, Regs(state[0], state[1], state[2], state[3], state[4]), block);
    state[0] := Plus(state[0], r.a);
    state[1] := Plus(state[1], r.b);
    state[2] := Plus(state[2], r.c);
    state[3] := Plus(state[3], r.d);
    state[4] := Plus(state[4], r.e);
  }

  lemma CircleStart(little: bool, l: seq<Word>, block: seq<Octet>)
    requires |l| == 16 && |block| == 64 && forall j :: 0 <= j < 16 ==> l[j] == HostWord(little, block, j)
    ensures Circle(little, l, block, 0)
  {
  }
}
