/**
  Go strings: byte sequences, and their conversion to runes. The conversion decodes
  UTF-8 as in the table of section 4 of RFC 3629; a byte that starts no well-formed
  encoding becomes the one rune U+FFFD.
 */
module GoText {

  type Byte = x: int | 0 <= x < 256
  type Text = seq<Byte>

  const REPLACEMENT: int := 0xFFFD

  predicate Continuation(b: Byte) { 0x80 <= b <= 0xBF }

  /** The second byte allowed after a leading byte of a three- or four-byte encoding. */
  predicate SecondByte(lead: Byte, b: Byte) {
    (if lead == 0xE0 then 0xA0 else if lead == 0xF0 then 0x90 else 0x80) <= b
    <= (if lead == 0xED then 0x9F else if lead == 0xF4 then 0x8F else 0xBF)
  }

  /** Number of bytes of the first rune of `s`. */
  function Width(s: Text): (w: nat)
    requires s != []
    ensures 1 <= w <= 4 && w <= |s|
  {
    if 0xC2 <= s[0] <= 0xDF && |s| >= 2 && Continuation(s[1]) then 2
    else if 0xE0 <= s[0] <= 0xEF && |s| >= 3 && SecondByte(s[0], s[1]) && Continuation(s[2]) then 3
    else if 0xF0 <= s[0] <= 0xF4 && |s| >= 4 && SecondByte(s[0], s[1]) && Continuation(s[2]) && Continuation(s[3]) then 4
    else 1
  }

  /** The payload of a byte once its marker bits are removed. */
  function Bits(b: Byte, marker: int): int { b - marker }

  /** The first rune of `s`. */
  function Rune(s: Text): (r: int)
    requires s != []
    ensures Width(s) == 1 ==> r < 0x80 || r == REPLACEMENT
    ensures Width(s) == 2 ==> 0x80 <= r < 0x800
  {
    var w := Width(s);
    if w == 1 then if s[0] < 0x80 then s[0] else REPLACEMENT
    else if w == 2 then Bits(s[0], 0xC0) * 64 + Bits(s[1], 0x80)
    else if w == 3 then Bits(s[0], 0xE0) * 4096 + Bits(s[1], 0x80) * 64 + Bits(s[2], 0x80)
    else Bits(s[0], 0xF0) * 262144 + Bits(s[1], 0x80) * 4096 + Bits(s[2], 0x80) * 64 + Bits(s[3], 0x80)
  }

  /** Go's conversion []rune(s). */
  function Runes(s: Text): (r: seq<int>)
    ensures |r| <= |s|
    ensures r == [] <==> s == []
  {
    if s == [] then [] else [Rune(s)] + Runes(s[Width(s)..])
  }

  /** Well-formed UTF-8: no byte is replaced by U+FFFD. */
  predicate Valid(s: Text) {
    s == [] || ((Width(s) == 1 ==> s[0] < 0x80) && Valid(s[Width(s)..]))
  }

  /** Text that needs more bytes than runes, and more than one rune, either needs two more bytes or holds a
      byte that stands for a rune of its own. */
  lemma {:induction false} SingleByteRune(s: Text) returns (x: Byte)
    requires |Runes(s)| >= 1 && |s| < 2 * |Runes(s)|
    ensures Runes([x]) == [Runes([x])[0]] && Runes([x])[0] in Runes(s)
  {
    if Width(s) == 1 {
      x := s[0];
      assert [x][Width([x])..] == [];
      assert Runes([x]) == [Rune([x])];
      assert Rune([x]) == Rune(s) == Runes(s)[0];
    } else {
      x := SingleByteRune(s[Width(s)..]);
    }
  }

  // ---- Encoding and decoding ------------------------------------------------------------------------------

  /** The values that UTF-8 encodes: all up to U+10FFFF but the surrogates. */
  predicate Scalar(r: int) { 0 <= r <= 0x10FFFF && !(0xD800 <= r <= 0xDFFF) }

  function Encode(r: int): (s: Text)
    requires Scalar(r)
    ensures 1 <= |s| <= 4
  {
    if r < 0x80 then [r]
    else if r < 0x800 then [0xC0 + r / 64, 0x80 + r % 64]
    else if r < 0x10000 then [0xE0 + r / 4096, 0x80 + r / 64 % 64, 0x80 + r % 64]
    else [0xF0 + r / 262144, 0x80 + r / 4096 % 64, 0x80 + r / 64 % 64, 0x80 + r % 64]
  }

  function EncodeAll(rs: seq<int>): Text
    requires forall i :: 0 <= i < |rs| ==> Scalar(rs[i])
  {
    if rs == [] then [] else Encode(rs[0]) + EncodeAll(rs[1..])
  }

  lemma DecodesTwo(r: int, s: Text)
    requires 0x80 <= r < 0x800 && |s| >= 2 && s[0] == 0xC0 + r / 64 && s[1] == 0x80 + r % 64
    ensures Width(s) == 2 && Rune(s) == r
  {
  }

  lemma DecodesThree(r: int, s: Text)
    requires 0x800 <= r < 0x10000 && Scalar(r) && |s| >= 3
    requires s[0] == 0xE0 + r / 4096 && s[1] == 0x80 + r / 64 % 64 && s[2] == 0x80 + r % 64
    ensures Width(s) == 3 && Rune(s) == r
  {
    assert r / 64 == r / 4096 * 64 + r / 64 % 64;
    assert s[0] == 0xE0 ==> r / 64 % 64 >= 0x20;
    assert s[0] == 0xED ==> r / 64 % 64 < 0x20;
  }

  lemma DecodesFour(r: int, s: Text)
    requires 0x10000 <= r <= 0x10FFFF && |s| >= 4
    requires s[0] == 0xF0 + r / 262144 && s[1] == 0x80 + r / 4096 % 64 && s[2] == 0x80 + r / 64 % 64 && s[3] == 0x80 + r % 64
    ensures Width(s) == 4 && Rune(s) == r
  {
    assert r / 4096 == r / 262144 * 64 + r / 4096 % 64;
    assert r / 64 == r / 4096 * 64 + r / 64 % 64;
  }

  /** Text that begins with the encoding of a value begins with that rune. */
  lemma FirstDecoded(r: int, s: Text)
    requires Scalar(r) && Encode(r) <= s
    ensures Width(s) == |Encode(r)| && Rune(s) == r
  {
    var e := Encode(r);
    assert forall i :: 0 <= i < |e| ==> s[i] == e[i];
    if r < 0x80 {
      assert s[0] == r;
    } else if r < 0x800 {
      DecodesTwo(r, s);
    } else if r < 0x10000 {
      DecodesThree(r, s);
    } else {
      DecodesFour(r, s);
    }
  }

  lemma Groups(a: int, b: int, c: int, d: int)
    requires 0 <= a && 0 <= b < 64 && 0 <= c < 64 && 0 <= d < 64
    ensures
      var r := a * 262144 + b * 4096 + c * 64 + d;
      r / 262144 == a && r / 4096 % 64 == b && r / 64 % 64 == c && r % 64 == d
  {
    var r := a * 262144 + b * 4096 + c * 64 + d;
    assert r / 64 == a * 4096 + b * 64 + c;
    assert r / 4096 == a * 64 + b;
  }

  lemma EncodesTwo(s: Text)
    requires s != [] && Width(s) == 2
    ensures Scalar(Rune(s)) && Encode(Rune(s)) == s[..2]
  {
    Groups(0, 0, s[0] as int - 0xC0, s[1] as int - 0x80);
  }

  lemma EncodesThree(s: Text)
    requires s != [] && Width(s) == 3
    ensures Scalar(Rune(s)) && Encode(Rune(s)) == s[..3]
  {
    Groups(0, s[0] as int - 0xE0, s[1] as int - 0x80, s[2] as int - 0x80);
  }

  lemma EncodesFour(s: Text)
    requires s != [] && Width(s) == 4
    ensures Scalar(Rune(s)) && Encode(Rune(s)) == s[..4]
  {
    Groups(s[0] as int - 0xF0, s[1] as int - 0x80, s[2] as int - 0x80, s[3] as int - 0x80);
  }

  /** A first rune that was not put in for a malformed byte is a value whose encoding the text begins with. */
  lemma FirstEncoded(s: Text)
    requires s != [] && (Width(s) == 1 ==> s[0] < 0x80)
    ensures Scalar(Rune(s)) && Encode(Rune(s)) == s[..Width(s)]
  {
    assert Width(s) == 1 ==> Rune(s) == s[0] && Encode(Rune(s)) == [s[0]];
    hide Rune;
    hide Encode;
    var w := Width(s);
    if w == 2 { EncodesTwo(s); } else if w == 3 { EncodesThree(s); } else if w == 4 { EncodesFour(s); }
  }

  ghost predicate BeginsWell(s: Text) { exists r :: Scalar(r) && Encode(r) <= s }

  /** The first rune of a text: the value whose encoding it begins with; without one, U+FFFD for its first byte. */
  lemma FirstRuneExactly(s: Text)
    requires s != []
    ensures if BeginsWell(s) then Scalar(Rune(s)) && Encode(Rune(s)) == s[..Width(s)] else Width(s) == 1 && Rune(s) == 0xFFFD
  {
    if Width(s) > 1 || s[0] < 0x80 {
      FirstEncoded(s);
      assert Encode(Rune(s)) <= s;
    }
    if BeginsWell(s) {
      var r :| Scalar(r) && Encode(r) <= s;
      FirstDecoded(r, s);
    }
  }

  /** Decoding undoes encoding. */
  lemma {:induction false} DecodeEncoded(rs: seq<int>)
    requires forall i :: 0 <= i < |rs| ==> Scalar(rs[i])
    ensures Runes(EncodeAll(rs)) == rs && Valid(EncodeAll(rs))
  {
    if rs != [] {
      var e, rest := Encode(rs[0]), EncodeAll(rs[1..]);
      var s := e + rest;
      DecodeEncoded(rs[1..]);
      FirstDecoded(rs[0], s);
      OneByte(rs[0], s);
      hide Encode;
      hide Rune;
      hide Width;
      hide Scalar;
      assert s[|e|..] == rest;
      assert [rs[0]] + rs[1..] == rs;
    }
  }

  lemma OneByte(r: int, s: Text)
    requires Scalar(r) && Encode(r) <= s
    ensures |Encode(r)| == 1 ==> s[0] < 0x80
  {
  }

  /** And encoding undoes decoding of well-formed text. */
  lemma {:induction false} EncodeDecoded(s: Text)
    requires Valid(s)
    ensures (forall i :: 0 <= i < |Runes(s)| ==> Scalar(Runes(s)[i])) && EncodeAll(Runes(s)) == s
  {
    hide Encode;
    hide Rune;
    hide Width;
    hide Scalar;
    if s != [] {
      var w := Width(s);
      EncodeDecoded(s[w..]);
      FirstEncoded(s);
      assert Runes(s)[1..] == Runes(s[w..]);
      assert s == s[..w] + s[w..];
    }
  }

  /** So on well-formed text the runes determine the bytes. */
  lemma RunesInjective(a: Text, b: Text)
    requires Valid(a) && Valid(b) && Runes(a) == Runes(b)
    ensures a == b
  {
    hide Runes;
    hide Valid;
    EncodeDecoded(a);
    EncodeDecoded(b);
  }
}
