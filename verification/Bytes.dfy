/** Machine integers and network byte order, shared by every other module. */
module Bytes {
  type byte = b: int | 0 <= b < 0x100
  type u16 = x: int | 0 <= x < 0x1_0000
  type u32 = x: int | 0 <= x < 0x1_0000_0000

  type Ip = s: seq<byte> | |s| == 4 witness [0, 0, 0, 0]
  type Mac = s: seq<byte> | |s| == 6 witness [0, 0, 0, 0, 0, 0]

  datatype Option<+T> = None | Some(value: T)

  /** C's addition on uint32_t. */
  function Add32(a: u32, b: u32): u32 {
    (a + b) % 0x1_0000_0000
  }

  /** A 16-bit word from its high and low byte. */
  function Word(hi: byte, lo: byte): u16 {
    var h: int, l: int := hi, lo;
    h * 0x100 + l
  }

  /** READ_NET16: two bytes, most significant first. */
  function Read16(s: seq<byte>, off: nat): u16
    requires off + 1 < |s|
  {
    Word(s[off], s[off + 1])
  }

  /** The two bytes WRITE_NET16 stores. */
  function Net16(v: u16): seq<byte> {
    [v / 0x100, v % 0x100]
  }

  /** memcpy of `data` to offset `off`. */
  function Put(s: seq<byte>, off: nat, data: seq<byte>): (r: seq<byte>)
    requires off + |data| <= |s|
    ensures |r| == |s|
    ensures r[off..off + |data|] == data
    ensures forall i :: 0 <= i < off || off + |data| <= i < |s| ==> r[i] == s[i]
  {
    s[..off] + data + s[off + |data|..]
  }

  /** Concatenation of a chain of buffers. */
  function Flatten(parts: seq<seq<byte>>): seq<byte> {
    if parts == [] then [] else parts[0] + Flatten(parts[1..])
  }

  lemma {:induction false} FlattenSnoc(parts: seq<seq<byte>>, last: seq<byte>)
    ensures Flatten(parts + [last]) == Flatten(parts) + last
  {
    if parts == [] {
      assert parts + [last] == [last];
    } else {
      assert (parts + [last])[1..] == parts[1..] + [last];
      FlattenSnoc(parts[1..], last);
    }
  }

  lemma {:induction false} FlattenSplit(parts: seq<seq<byte>>, i: nat)
    requires i <= |parts|
    ensures Flatten(parts) == Flatten(parts[..i]) + Flatten(parts[i..])
  {
    if i == 0 {
      assert parts[0..] == parts;
    } else {
      FlattenSplit(parts[1..], i - 1);
      assert parts[1..][..i - 1] == parts[..i][1..];
      assert parts[1..][i - 1..] == parts[i..];
    }
  }

  lemma SliceOfSlice(s: seq<byte>, a: nat, b: nat, i: nat, j: nat)
    requires a <= b <= |s| && i <= j <= b - a
    ensures s[a..b][i..j] == s[a + i..a + j]
  {
    var t, u := s[a..b][i..j], s[a + i..a + j];
    assert |t| == |u|;
    assert forall k :: 0 <= k < |t| ==> t[k] == s[a..b][i + k] == s[a + i + k] == u[k];
  }

  lemma {:induction false} SubsetSize<T>(a: set<T>, b: set<T>)
    requires a <= b
    ensures |a| <= |b|
  {
    if |a| > 0 {
      var x :| x in a;
      SubsetSize(a - {x}, b - {x});
    }
  }
}
