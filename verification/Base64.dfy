/**
 The Base64 codec of src/rpc/base64.hpp, against the definition of section 4 of
 RFC 4648: three octets are a 24-bit number, written as four 6-bit symbols.
 */
module Base64 {
  import opened Bytes

  const PAD := '='

  type Sextet = v: int | 0 <= v < 64

  /** Table 1 of RFC 4648, by ranges. */
  function Symbol(v: Sextet): char {
    if v < 26 then 'A' + v as char
    else if v < 52 then 'a' + (v - 26) as char
    else if v < 62 then '0' + (v - 52) as char
    else if v == 62 then '+' else '/'
  }

  /** is_base64 in the C locale. */
  predicate IsBase64(c: char) {
    'A' <= c <= 'Z' || 'a' <= c <= 'z' || '0' <= c <= '9' || c == '+' || c == '/'
  }

  function Value(c: char): Sextet
    requires IsBase64(c)
  {
    if 'A' <= c <= 'Z' then c as int - 'A' as int
    else if 'a' <= c <= 'z' then c as int - 'a' as int + 26
    else if '0' <= c <= '9' then c as int - '0' as int + 52
    else if c == '+' then 62 else 63
  }

  lemma SymbolValue(v: Sextet)
    ensures IsBase64(Symbol(v)) && Value(Symbol(v)) == v && Symbol(v) != PAD
  {
  }

  lemma ValueSymbol(c: char)
    requires IsBase64(c)
    ensures Symbol(Value(c)) == c
  {
  }

  function Letters(first: char, n: nat): string
    requires first as int + n <= 128
  {
    seq(n, i requires 0 <= i < n => first + i as char)
  }

  /** base64_chars: upper case, lower case, digits and two signs. */
  function Alphabet(): string {
    Letters('A', 26) + Letters('a', 26) + Letters('0', 10) + "+/"
  }

  /** The table of the source lists the symbols in order. */
  lemma AlphabetIsSymbols()
    ensures |Alphabet()| == 64 && forall v: Sextet :: Alphabet()[v] == Symbol(v)
  {
  }

  /** Four sextets of a 24-bit number, and three octets of one. */
  function Sextets(n: nat): (v: seq<Sextet>)
    requires n < 0x100_0000
    ensures |v| == 4
  {
    [n / 64 / 64 / 64, n / 64 / 64 % 64, n / 64 % 64, n % 64]
  }

  function Number(b: seq<byte>): (n: nat)
    requires |b| == 3
    ensures n < 0x100_0000
  {
    var x: int, y: int, z: int := b[0], b[1], b[2];
    x * 0x1_0000 + y * 0x100 + z
  }

  function Octets(n: nat): (b: seq<byte>)
    requires n < 0x100_0000
    ensures |b| == 3
  {
    [n / 0x100 / 0x100, n / 0x100 % 0x100, n % 0x100]
  }

  function SextetNumber(v: seq<Sextet>): (n: nat)
    requires |v| == 4
    ensures n < 0x100_0000
  {
    var a: int, b: int, c: int, d: int := v[0], v[1], v[2], v[3];
    a * 0x4_0000 + b * 0x1000 + c * 64 + d
  }

  function Text(v: seq<Sextet>): (t: string)
    ensures |t| == |v| && forall i :: 0 <= i < |v| ==> t[i] == Symbol(v[i])
  {
    if v == [] then "" else [Symbol(v[0])] + Text(v[1..])
  }

  /** The encoding: whole groups, then one or two octets filled up with zero bits and padded. */
  function Encoded(s: seq<byte>): string {
    if s == [] then ""
    else if |s| == 1 then Text(Sextets(Number(s + [0, 0]))[..2]) + [PAD, PAD]
    else if |s| == 2 then Text(Sextets(Number(s + [0]))[..3]) + [PAD]
    else Text(Sextets(Number(s[..3]))) + Encoded(s[3..])
  }

  /** The symbols before the first character that is not one. */
  function Symbols(t: string): (v: seq<Sextet>)
    ensures |v| <= |t|
    ensures forall i :: 0 <= i < |v| ==> IsBase64(t[i]) && v[i] == Value(t[i])
    ensures |v| < |t| ==> !IsBase64(t[|v|])
  {
    if t == "" || !IsBase64(t[0]) then [] else [Value(t[0])] + Symbols(t[1..])
  }

  /** Whole groups of four, then the octets that the remaining symbols determine. */
  function Joined(v: seq<Sextet>): seq<byte> {
    if |v| < 2 then []
    else if |v| == 2 then Octets(SextetNumber(v + [0, 0]))[..1]
    else if |v| == 3 then Octets(SextetNumber(v + [0]))[..2]
    else Octets(SextetNumber(v[..4])) + Joined(v[4..])
  }

  function Decoded(t: string): seq<byte> {
    Joined(Symbols(t))
  }

  // ----- the round trip -----

  lemma GroupRoundTrip(n: nat)
    requires n < 0x100_0000
    ensures SextetNumber(Sextets(n)) == n
  {
  }

  lemma OctetsNumber(b: seq<byte>)
    requires |b| == 3
    ensures Octets(Number(b)) == b
  {
  }

  /** The sextets of an encoding, whole groups and tail. */
  function EncodedSextets(s: seq<byte>): seq<Sextet> {
    if s == [] then []
    else if |s| == 1 then Sextets(Number(s + [0, 0]))[..2]
    else if |s| == 2 then Sextets(Number(s + [0]))[..3]
    else Sextets(Number(s[..3])) + EncodedSextets(s[3..])
  }

  /** The number of padding characters. */
  function Padding(n: nat): (k: nat)
    ensures k < 3 && (n + k) % 3 == 0
  {
    (3 - n % 3) % 3
  }

  function Pads(k: nat): string {
    if k == 0 then "" else if k == 1 then [PAD] else [PAD, PAD]
  }

  lemma TextAppend(v: seq<Sextet>, w: seq<Sextet>)
    ensures Text(v + w) == Text(v) + Text(w)
  {
  }

  /** An encoding is its symbols followed by its padding. */
  lemma {:induction false} EncodedShape(s: seq<byte>)
    ensures Encoded(s) == Text(EncodedSextets(s)) + Pads(Padding(|s|))
    ensures |EncodedSextets(s)| + Padding(|s|) == (|s| + 2) / 3 * 4
  {
    hide Sextets, Number, Text;
    if |s| >= 3 {
      EncodedShape(s[3..]);
      TextAppend(Sextets(Number(s[..3])), EncodedSextets(s[3..]));
      assert Padding(|s[3..]|) == Padding(|s|);
      assert (|s[3..]| + 2) / 3 == (|s| + 2) / 3 - 1;
    }
  }

  lemma {:induction false} SymbolsOfText(v: seq<Sextet>, rest: string)
    requires rest == "" || !IsBase64(rest[0])
    ensures Symbols(Text(v) + rest) == v
  {
    hide Symbol, Value, IsBase64;
    if v == [] {
      assert Text(v) + rest == rest;
    } else {
      SymbolValue(v[0]);
      SymbolsOfText(v[1..], rest);
      var t := Text(v) + rest;
      assert t[0] == Symbol(v[0]) && t[1..] == Text(v[1..]) + rest;
    }
  }

  /** A group filled up with zero octets ends in zero sextets. */
  lemma {:induction false} ZeroSextets(x: byte, y: byte)
    ensures var v := Sextets(Number([x, 0, 0])); v[2] == 0 && v[3] == 0
    ensures Sextets(Number([x, y, 0]))[3] == 0
  {
    var a: int, b: int := x, y;
    Divided64(Number([x, 0, 0]), a * 1024, 0);
    Divided64(a * 1024, a * 16, 0);
    Divided64(Number([x, y, 0]), a * 1024 + b * 4, 0);
  }

  /** So it still determines its leading octets. */
  lemma {:induction false} TailRoundTrip(s: seq<byte>)
    requires 1 <= |s| <= 2
    ensures Joined(EncodedSextets(s)) == s
  {
    hide Sextets, Number, Octets, SextetNumber;
    if |s| == 1 {
      assert s + [0, 0] == [s[0], 0, 0];
      var full: seq<byte> := s + [0, 0];
      ZeroSextets(s[0], 0);
      GroupRoundTrip(Number(full));
      OctetsNumber(full);
      var v := Sextets(Number(full));
      assert v == v[..2] + [0, 0];
    } else {
      assert s + [0] == [s[0], s[1], 0];
      var full: seq<byte> := s + [0];
      ZeroSextets(s[0], s[1]);
      GroupRoundTrip(Number(full));
      OctetsNumber(full);
      var v := Sextets(Number(full));
      assert v == v[..3] + [0];
    }
  }

  lemma {:induction false} SextetsRoundTrip(s: seq<byte>)
    ensures Joined(EncodedSextets(s)) == s
  {
    if 1 <= |s| <= 2 {
      TailRoundTrip(s);
    } else if |s| >= 3 {
      SextetsRoundTrip(s[3..]);
      GroupRoundTrip(Number(s[..3]));
      OctetsNumber(s[..3]);
      hide Sextets, Number, Octets, SextetNumber;
      var v := EncodedSextets(s);
      assert v[..4] == Sextets(Number(s[..3])) && v[4..] == EncodedSextets(s[3..]);
      assert s == s[..3] + s[3..];
    }
  }

  /** For every octet string, decoding what was encoded gives it back. */
  lemma {:induction false} RoundTrip(s: seq<byte>)
    ensures Decoded(Encoded(s)) == s
  {
    EncodedShape(s);
    SymbolsOfText(EncodedSextets(s), Pads(Padding(|s|)));
    SextetsRoundTrip(s);
  }

  /** Four characters for every three octets begun; padding only at the end, and only as much as needed. */
  lemma {:induction false} EncodedLength(s: seq<byte>)
    ensures |Encoded(s)| == (|s| + 2) / 3 * 4
    ensures forall i :: 0 <= i < |Encoded(s)| ==>
      if i < |Encoded(s)| - Padding(|s|) then IsBase64(Encoded(s)[i]) else Encoded(s)[i] == PAD
  {
    EncodedShape(s);
    var v := EncodedSextets(s);
    forall i | 0 <= i < |v|
      ensures IsBase64(Encoded(s)[i])
    {
      SymbolValue(v[i]);
    }
  }

  // ----- the loops of the source; masks and shifts are written as remainders and quotients -----

  lemma Divided64(n: nat, q: nat, r: nat)
    requires n == q * 64 + r && r < 64
    ensures n / 64 == q && n % 64 == r
  {
  }

  lemma Divided256(n: nat, q: nat, r: nat)
    requires n == q * 0x100 + r && r < 0x100
    ensures n / 0x100 == q && n % 0x100 == r
  {
  }

  lemma {:induction false} ShiftedSextets(x: byte, y: byte, z: byte)
    ensures var a: int, b: int, c: int := x, y, z;
            Sextets(Number([x, y, z])) == [a / 4, a % 4 * 16 + b / 16, b % 16 * 4 + c / 64, c % 64]
  {
    var a: int, b: int, c: int := x, y, z;
    var n := Number([x, y, z]);
    Divided64(n, a * 1024 + b * 4 + c / 64, c % 64);
    Divided64(n / 64, a * 16 + b / 16, b % 16 * 4 + c / 64);
    Divided64(n / 64 / 64, a / 4, a % 4 * 16 + b / 16);
  }

  lemma {:induction false} ShiftedOctets(v: seq<Sextet>)
    requires |v| == 4
    ensures var a: int, b: int, c: int, d: int := v[0], v[1], v[2], v[3];
            Octets(SextetNumber(v)) == [a * 4 + b / 16, b % 16 * 16 + c / 4, c % 4 * 64 + d]
  {
    var a: int, b: int, c: int, d: int := v[0], v[1], v[2], v[3];
    var n := SextetNumber(v);
    Divided256(n, a * 1024 + b * 16 + c / 4, c % 4 * 64 + d);
    Divided256(n / 0x100, a * 4 + b / 16, b % 16 * 16 + c / 4);
  }

  /** Whole groups are encoded one by one. */
  lemma {:induction false} EncodedAppend(s: seq<byte>, r: seq<byte>)
    requires |s| % 3 == 0
    ensures Encoded(s + r) == Encoded(s) + Encoded(r)
  {
    hide Sextets, Number, Text, Encoded;
    if s == [] {
      EncodedNothing();
      assert s + r == r;
    } else {
      assert (s + r)[..3] == s[..3] && (s + r)[3..] == s[3..] + r;
      EncodedGroup(s);
      EncodedGroup(s + r);
      EncodedAppend(s[3..], r);
    }
  }

  lemma {:induction false} EncodedGroup(s: seq<byte>)
    requires |s| >= 3
    ensures Encoded(s) == Text(Sextets(Number(s[..3]))) + Encoded(s[3..])
  {
    hide Sextets, Number, Text;
  }

  lemma {:induction false} JoinedAppend(v: seq<Sextet>, w: seq<Sextet>)
    requires |v| % 4 == 0
    ensures Joined(v + w) == Joined(v) + Joined(w)
  {
    hide Octets, SextetNumber;
    if v == [] {
      assert v + w == w;
    } else {
      assert (v + w)[..4] == v[..4] && (v + w)[4..] == v[4..] + w;
      JoinedAppend(v[4..], w);
    }
  }

  /** char_array_3 to char_array_4. */
  method SplitGroup(a3: array<byte>, a4: array<Sextet>)
    requires a3.Length == 3 && a4.Length == 4
    modifies a4
    ensures a4[..] == Sextets(Number(a3[..]))
  {
    ShiftedSextets(a3[0], a3[1], a3[2]);
    hide Sextets, Number;
    assert a3[..] == [a3[0], a3[1], a3[2]];
    var a: int, b: int, c: int := a3[0], a3[1], a3[2];
    a4[0] := a / 4;
    a4[1] := a % 4 * 16 + b / 16;
    a4[2] := b % 16 * 4 + c / 64;
    a4[3] := c % 64;
    assert a4[..] == [a4[0], a4[1], a4[2], a4[3]];
  }

  /** Appends the first n characters of a group. */
  method AppendSymbols(ret: string, a4: array<Sextet>, n: nat) returns (r: string)
    requires a4.Length == 4 && n <= 4
    ensures r == ret + Text(a4[..n])
  {
    AlphabetIsSymbols();
    hide Text, Alphabet, Symbol;
    r := ret;
    for i := 0 to n
      invariant |r| == |ret| + i && r[..|ret|] == ret
      invariant forall j :: 0 <= j < i ==> r[|ret| + j] == Symbol(a4[j])
    {
      r := r + [Alphabet()[a4[i]]];
    }
    assert r[|ret|..] == Text(a4[..n]);
  }

  /** After k octets: whole groups are encoded, the other i octets wait in char_array_3. */
  predicate Encoding(bytes: seq<byte>, k: nat, i: nat, ret: string, a3: seq<byte>) {
    && i < 3 && i <= k <= |bytes| && (k - i) % 3 == 0 && |a3| == 3
    && ret == Encoded(bytes[..k - i]) && a3[..i] == bytes[k - i..k]
  }

  lemma EncodingStart(bytes: seq<byte>, a3: seq<byte>)
    requires |a3| == 3
    ensures Encoding(bytes, 0, 0, "", a3)
  {
  }

  lemma EncodingStore(bytes: seq<byte>, k: nat, i: nat, ret: string, a3: seq<byte>, a3': seq<byte>)
    requires Encoding(bytes, k, i, ret, a3) && k < |bytes| && i < 2 && a3' == a3[i := bytes[k]]
    ensures Encoding(bytes, k + 1, i + 1, ret, a3')
  {
    hide Encoded;
    assert a3'[..i + 1] == a3[..i] + [bytes[k]];
  }

  lemma EncodingFlush(bytes: seq<byte>, k: nat, ret: string, a3: seq<byte>, a3': seq<byte>)
    requires Encoding(bytes, k, 2, ret, a3) && k < |bytes| && a3' == a3[2 := bytes[k]]
    ensures Encoding(bytes, k + 1, 0, ret + Text(Sextets(Number(a3'))), a3')
  {
    hide Encoded, Text, Sextets, Number;
    GroupEncoded(bytes[..k - 2], a3');
    assert a3'[..2] == a3[..2];
    assert a3' == a3'[..2] + [a3'[2]];
    assert bytes[..k - 2] + a3' == bytes[..k + 1];
  }

  lemma {:induction false} EncodingEnd(bytes: seq<byte>, i: nat, ret: string, a3: seq<byte>)
    requires Encoding(bytes, |bytes|, i, ret, a3)
    ensures ret + Encoded(a3[..i]) == Encoded(bytes)
  {
    hide Encoded;
    var done := bytes[..|bytes| - i];
    EncodedAppend(done, a3[..i]);
    assert bytes == done + bytes[|bytes| - i..|bytes|];
  }

  /** base64_encode. */
  method Encode(bytes: seq<byte>) returns (ret: string)
    ensures ret == Encoded(bytes)
  {
    ret := "";
    var i := 0;
    var a3, a4 := new byte[3], new Sextet[4];
    EncodingStart(bytes, a3[..]);
    hide Encoding, Encoded, Text, Sextets, Number;
    for k := 0 to |bytes|
      invariant 0 <= i < 3 && Encoding(bytes, k, i, ret, a3[..])
    {
      ghost var was := a3[..];
      a3[i] := bytes[k];
      i := i + 1;
      if i == 3 {
        EncodingFlush(bytes, k, ret, was, a3[..]);
        SplitGroup(a3, a4);
        assert a4[..4] == a4[..];
        ret := AppendSymbols(ret, a4, 4);
        i := 0;
      } else {
        EncodingStore(bytes, k, i - 1, ret, was, a3[..]);
      }
    }
    EncodingEnd(bytes, i, ret, a3[..]);
    EncodedNothing();
    if i > 0 {
      ret := EncodeTail(ret, a3, a4, i);
    }
  }

  lemma EncodedNothing()
    ensures Encoded([]) == ""
  {
  }

  lemma {:induction false} GroupEncoded(done: seq<byte>, group: seq<byte>)
    requires |done| % 3 == 0 && |group| == 3
    ensures Encoded(done + group) == Encoded(done) + Text(Sextets(Number(group)))
  {
    EncodedAppend(done, group);
    assert group[..3] == group && Encoded(group[3..]) == "";
  }

  /** The last one or two octets. */
  method EncodeTail(before: string, a3: array<byte>, a4: array<Sextet>, i: nat) returns (ret: string)
    requires a3.Length == 3 && a4.Length == 4 && 1 <= i <= 2
    modifies a3, a4
    ensures ret == before + Encoded(old(a3[..i]))
  {
    hide Sextets, Number, Text;
    ghost var tail := a3[..i];
    for j := i to 3
      invariant a3[..i] == tail && forall x :: i <= x < j ==> a3[x] == 0
    {
      a3[j] := 0;
    }
    assert a3[..] == if i == 1 then tail + [0, 0] else tail + [0];
    SplitGroup(a3, a4);
    ret := AppendSymbols(before, a4, i + 1);
    assert a4[..i + 1] == a4[..][..i + 1];
    ghost var symbols := ret;
    var k := i;
    while k < 3
      invariant i <= k <= 3 && ret == symbols + Pads(k - i)
    {
      ret := ret + [PAD];
      k := k + 1;
    }
  }

  /** base64_chars.find. */
  method IndexOf(c: char) returns (v: Sextet)
    requires IsBase64(c)
    ensures v == Value(c)
  {
    AlphabetIsSymbols();
    ValueSymbol(c);
    hide Alphabet;
    var k := 0;
    while Alphabet()[k] != c
      invariant 0 <= k <= Value(c)
      decreases Value(c) - k
    {
      k := k + 1;
    }
    SymbolValue(k);
    v := k;
  }

  /** char_array_4 to char_array_3 for a whole group: the sums fit an unsigned char. */
  method JoinGroup(a4: array<byte>, a3: array<byte>, ghost g: seq<Sextet>)
    requires a3.Length == 3 && a4.Length == 4 && a4 != a3 && |g| == 4 && forall x :: 0 <= x < 4 ==> a4[x] == g[x]
    modifies a3
    ensures a3[..] == Octets(SextetNumber(g))
  {
    ShiftedOctets(g);
    hide Octets, SextetNumber;
    var a: int, b: int, c: int, d: int := a4[0], a4[1], a4[2], a4[3];
    a3[0] := a * 4 + b / 16;
    a3[1] := b % 16 * 16 + c / 4;
    a3[2] := c % 4 * 64 + d;
    assert a3[..] == [a3[0], a3[1], a3[2]];
  }

  /** The first i bytes of char_array_4 are characters with the given values; the others are anything. */
  predicate Waiting(a4: seq<byte>, i: nat, g: seq<Sextet>) {
    && i <= |a4| == |g| == 4
    && forall x :: 0 <= x < i ==> IsBase64(a4[x] as char) && Value(a4[x] as char) == g[x]
  }

  lemma WaitingMore(a4: seq<byte>, i: nat, g: seq<Sextet>, c: char)
    requires Waiting(a4, i, g) && i < 4 && IsBase64(c)
    ensures c as int < 0x100 && Waiting(a4[i := c as byte], i + 1, g[i := Value(c)])
  {
  }

  /** The characters that wait are replaced by their values. */
  method Convert(a4: array<byte>, i: nat, ghost g: seq<Sextet>)
    requires a4.Length == 4 && i <= 4 && Waiting(a4[..], i, g)
    modifies a4
    ensures forall x :: 0 <= x < i ==> a4[x] == g[x]
  {
    hide IsBase64, Value;
    for j := 0 to i
      invariant forall x :: 0 <= x < j ==> a4[x] == g[x]
      invariant forall x :: j <= x < i ==> a4[x] == old(a4[x])
    {
      assert a4[j] == old(a4[..])[j];
      a4[j] := IndexOf(a4[j] as char);
    }
  }

  /** After k symbols: whole groups are joined, the other i symbols wait in char_array_4. */
  predicate Decoding(v: seq<Sextet>, k: nat, i: nat, ret: seq<byte>, a4: seq<Sextet>) {
    && i < 4 && i <= k <= |v| && (k - i) % 4 == 0 && |a4| == 4
    && ret == Joined(v[..k - i]) && a4[..i] == v[k - i..k]
  }

  lemma DecodingStart(v: seq<Sextet>, a4: seq<Sextet>)
    requires |a4| == 4
    ensures Decoding(v, 0, 0, [], a4)
  {
  }

  lemma DecodingStore(v: seq<Sextet>, k: nat, i: nat, ret: seq<byte>, a4: seq<Sextet>, a4': seq<Sextet>)
    requires Decoding(v, k, i, ret, a4) && k < |v| && i < 3 && a4' == a4[i := v[k]]
    ensures Decoding(v, k + 1, i + 1, ret, a4')
  {
    hide Joined;
    assert a4'[..i + 1] == a4[..i] + [v[k]];
  }

  lemma DecodingFlush(v: seq<Sextet>, k: nat, ret: seq<byte>, a4: seq<Sextet>, a4': seq<Sextet>)
    requires Decoding(v, k, 3, ret, a4) && k < |v| && a4' == a4[3 := v[k]]
    ensures Decoding(v, k + 1, 0, ret + Octets(SextetNumber(a4')), a4')
  {
    hide Joined, Octets, SextetNumber;
    GroupJoined(v[..k - 3], a4');
    assert a4'[..3] == a4[..3];
    assert a4' == a4'[..3] + [a4'[3]];
    assert v[..k - 3] + a4' == v[..k + 1];
  }

  lemma {:induction false} DecodingEnd(v: seq<Sextet>, i: nat, ret: seq<byte>, a4: seq<Sextet>)
    requires Decoding(v, |v|, i, ret, a4)
    ensures ret + Joined(a4[..i]) == Joined(v)
  {
    hide Joined;
    var done := v[..|v| - i];
    JoinedAppend(done, a4[..i]);
    assert v == done + v[|v| - i..|v|];
  }

  /** base64_decode. */
  method Decode(encoded: string) returns (ret: seq<byte>)
    ensures ret == Decoded(encoded)
  {
    ret := [];
    var i, k := 0, 0;
    var a3, a4 := new byte[3], new byte[4];
    ghost var v: seq<Sextet>, g: seq<Sextet> := Symbols(encoded), [0, 0, 0, 0];
    DecodingStart(v, g);
    PadIsNoSymbol();
    hide Decoding, Joined, Symbols, Octets, SextetNumber, IsBase64, Value, Waiting;
    WaitingNone(a4[..], g);
    while k < |encoded| && encoded[k] != PAD && IsBase64(encoded[k])
      invariant 0 <= i < 4 && k <= |v| && |g| == 4 && Decoding(v, k, i, ret, g) && Waiting(a4[..], i, g)
    {
      ghost var was := a4[..];
      WaitingMore(was, i, g, encoded[k]);
      a4[i] := encoded[k] as byte;
      assert a4[..] == was[i := encoded[k] as byte];
      ghost var before := g;
      g := g[i := v[k]];
      i := i + 1;
      if i == 4 {
        DecodingFlush(v, k, ret, before, g);
        Convert(a4, 4, g);
        JoinGroup(a4, a3, g);
        ret := ret + a3[..];
        i := 0;
        WaitingNone(a4[..], g);
      } else {
        DecodingStore(v, k, i - 1, ret, before, g);
      }
      k := k + 1;
    }
    DecodingEnd(v, i, ret, g);
    if i > 0 {
      ret := DecodeTail(ret, a3, a4, i, g);
    } else {
      JoinedNothing();
    }
  }

  lemma WaitingNone(a4: seq<byte>, g: seq<Sextet>)
    requires |a4| == |g| == 4
    ensures Waiting(a4, 0, g)
  {
  }

  lemma JoinedNothing()
    ensures Joined([]) == []
  {
  }

  /** The last symbols; the octets are computed from whatever bytes the scratch array still holds behind them. */
  method DecodeTail(before: seq<byte>, a3: array<byte>, a4: array<byte>, i: nat, ghost g: seq<Sextet>)
    returns (ret: seq<byte>)
    requires a3.Length == 3 && a4.Length == 4 && a4 != a3 && 1 <= i <= 3 && Waiting(a4[..], i, g)
    modifies a3, a4
    ensures ret == before + Joined(g[..i])
  {
    hide Joined, Octets, SextetNumber, IsBase64, Value;
    Convert(a4, i, g);
    var a: int, b: int, c: int := a4[0], a4[1], a4[2];
    a3[0] := (a * 4 + b / 16 % 4) % 0x100;
    a3[1] := b % 16 * 16 + c / 4 % 16;
    StaleOctets(a4[..], i, g);
    ret := before;
    for j := 0 to i - 1
      invariant ret == before + a3[..j]
    {
      ret := ret + [a3[j]];
    }
    assert a3[..i - 1] == [a3[0], a3[1]][..i - 1];
  }

  /** Bytes behind the tail do not matter, symbols or not. */
  lemma {:induction false} StaleOctets(a4: seq<byte>, i: nat, g: seq<Sextet>)
    requires |a4| == |g| == 4 && 1 <= i <= 3 && forall x :: 0 <= x < i ==> a4[x] == g[x]
    ensures var a: int, b: int, c: int := a4[0], a4[1], a4[2];
            Joined(g[..i]) == [(a * 4 + b / 16 % 4) % 0x100, b % 16 * 16 + c / 4 % 16][..i - 1]
  {
    hide Joined, Octets, SextetNumber;
    var a: int, b: int, c: int, d: int := a4[0], a4[1], a4[2], a4[3];
    var group: seq<Sextet> := [a % 64, b % 64, c % 64, d % 64];
    assert group[..i] == g[..i];
    TailJoined(g[..i], group);
    ShiftedOctets(group);
    MiddleBits(b);
    UpperBits(c);
    ShiftWraps(a, b / 16 % 4);
  }

  lemma MiddleBits(x: byte)
    ensures x / 16 % 4 == x % 64 / 16 && x % 64 % 16 == x % 16
  {
    var h, l := x / 16, x % 16;
    Divided64(x, h / 4, h % 4 * 16 + l);
  }

  lemma UpperBits(x: byte)
    ensures x / 4 % 16 == x % 64 / 4
  {
    var h, l := x / 4, x % 4;
    Divided64(x, h / 16, h % 16 * 4 + l);
  }

  /** A left shift by two, stored in an unsigned char. */
  lemma ShiftWraps(x: byte, y: nat)
    requires y < 4
    ensures (x * 4 + y) % 0x100 == x % 64 * 4 + y
  {
    var q := x / 64;
    assert x * 4 + y == 0x100 * q + (x % 64 * 4 + y);
  }

  lemma PadIsNoSymbol()
    ensures !IsBase64(PAD)
  {
  }

  lemma {:induction false} GroupJoined(done: seq<Sextet>, group: seq<Sextet>)
    requires |done| % 4 == 0 && |group| == 4
    ensures Joined(done + group) == Joined(done) + Octets(SextetNumber(group))
  {
    JoinedAppend(done, group);
    assert group[..4] == group && Joined(group[4..]) == [];
  }

  lemma {:induction false} LeadingOctets(v: seq<Sextet>, w: seq<Sextet>, k: nat)
    requires |v| == |w| == 4 && 1 <= k <= 3 && v[..k] == w[..k]
    ensures Octets(SextetNumber(v))[..k - 1] == Octets(SextetNumber(w))[..k - 1]
  {
    ShiftedOctets(v);
    ShiftedOctets(w);
    hide Octets, SextetNumber;
    assert forall i :: 0 <= i < k ==> v[..k][i] == w[..k][i];
  }

  /** Whatever the scratch array still holds behind them, the symbols of the tail give the same octets. */
  lemma {:induction false} TailJoined(tail: seq<Sextet>, group: seq<Sextet>)
    requires 1 <= |tail| <= 3 && |group| == 4 && group[..|tail|] == tail
    ensures Joined(tail) == Octets(SextetNumber(group))[..|tail| - 1]
  {
    hide Octets, SextetNumber;
    if |tail| == 2 {
      LeadingOctets(tail + [0, 0], group, 2);
    } else if |tail| == 3 {
      LeadingOctets(tail + [0], group, 3);
    }
  }
}
