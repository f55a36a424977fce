/**
  Go's conversion of a string to []byte: the UTF-8 encoding of its characters,
  and the decoding that undoes it.
 */
module Utf8 {
  import opened CMapTypes

  /** The UTF-8 bytes of one Unicode scalar value: one to four bytes by its magnitude. */
  function EncodeChar(ch: char): (bs: seq<Byte>)
    ensures 1 <= |bs| <= 4
  {
    var c := ch as int;
    if c < 0x80 then [c]
    else if c < 0x800 then [0xC0 + c / 0x40, 0x80 + c % 0x40]
    else if c < 0x1_0000 then [0xE0 + c / 0x1000, 0x80 + (c / 0x40) % 0x40, 0x80 + c % 0x40]
    else [0xF0 + c / 0x4_0000, 0x80 + (c / 0x1000) % 0x40, 0x80 + (c / 0x40) % 0x40, 0x80 + c % 0x40]
  }

  /** []byte(s): the UTF-8 bytes of every character, in order. */
  function Encode(s: string): seq<Byte>
  {
    if s == [] then [] else EncodeChar(s[0]) + Encode(s[1..])
  }

  predicate IsCont(b: Byte)
  {
    0x80 <= b < 0xC0
  }

  /** A code point that is a Dafny character: at most U+10FFFF and not a surrogate. */
  predicate IsScalar(c: int)
  {
    0 <= c < 0xD800 || 0xE000 <= c <= 0x10_FFFF
  }

  /** The character at the start of `bs` and how many bytes it takes, if they are well-formed UTF-8. */
  function DecodeChar(bs: seq<Byte>): Option<(char, nat)>
  {
    if bs == [] then None
    else
      var b0, b1, b2, b3: int := bs[0], if |bs| > 1 then bs[1] else 0, if |bs| > 2 then bs[2] else 0, if |bs| > 3 then bs[3] else 0;
      if b0 < 0x80 then Some((b0 as char, 1))
      else if 0xC0 <= b0 < 0xE0 && |bs| >= 2 && IsCont(bs[1]) then
        var c := (b0 - 0xC0) * 0x40 + (b1 - 0x80);
        if 0x80 <= c then Some((c as char, 2)) else None
      else if 0xE0 <= b0 < 0xF0 && |bs| >= 3 && IsCont(bs[1]) && IsCont(bs[2]) then
        var c := (b0 - 0xE0) * 0x1000 + (b1 - 0x80) * 0x40 + (b2 - 0x80);
        if 0x800 <= c && IsScalar(c) then Some((c as char, 3)) else None
      else if 0xF0 <= b0 < 0xF8 && |bs| >= 4 && IsCont(bs[1]) && IsCont(bs[2]) && IsCont(bs[3]) then
        var c := (b0 - 0xF0) * 0x4_0000 + (b1 - 0x80) * 0x1000 + (b2 - 0x80) * 0x40 + (b3 - 0x80);
        if 0x1_0000 <= c && IsScalar(c) then Some((c as char, 4)) else None
      else None
  }

  /** The string whose UTF-8 encoding is `bs`, if `bs` is well-formed. */
  function Decode(bs: seq<Byte>): Option<string>
    decreases |bs|
  {
    if bs == [] then Some([])
    else
      match DecodeChar(bs)
      case None => None
      case Some(p) =>
        if 1 <= p.1 <= |bs| then
          match Decode(bs[p.1..])
          case Some(s) => Some([p.0] + s)
          case None => None
        else None
  }

  /** The bytes of one character decode to that character, whatever follows them. */
  lemma DecodeEncodeChar(ch: char, rest: seq<Byte>)
    ensures DecodeChar(EncodeChar(ch) + rest) == Some((ch, |EncodeChar(ch)|))
  {
    var c := ch as int;
    if c < 0x80 {
    } else if c < 0x800 {
      DecodeTwo(ch, rest);
    } else if c < 0x1_0000 {
      DecodeThree(ch, rest);
    } else {
      DecodeFour(ch, rest);
    }
  }

  lemma DecodeTwo(ch: char, rest: seq<Byte>)
    requires 0x80 <= ch as int < 0x800
    ensures DecodeChar(EncodeChar(ch) + rest) == Some((ch, 2))
  {
    Split2(ch as int);
  }

  lemma DecodeThree(ch: char, rest: seq<Byte>)
    requires 0x800 <= ch as int < 0x1_0000
    ensures DecodeChar(EncodeChar(ch) + rest) == Some((ch, 3))
  {
    Split3(ch as int);
  }

  lemma DecodeFour(ch: char, rest: seq<Byte>)
    requires 0x1_0000 <= ch as int
    ensures DecodeChar(EncodeChar(ch) + rest) == Some((ch, 4))
  {
    Split4(ch as int);
  }

  lemma Split2(c: int)
    requires 0x80 <= c < 0x800
    ensures 0xC2 <= 0xC0 + c / 0x40 < 0xE0 && (c / 0x40) * 0x40 + c % 0x40 == c
  {
  }

  lemma Split3(c: int)
    requires 0x800 <= c < 0x1_0000
    ensures 0xE0 <= 0xE0 + c / 0x1000 < 0xF0
    ensures (c / 0x1000) * 0x1000 + ((c / 0x40) % 0x40) * 0x40 + c % 0x40 == c
  {
    var q := c / 0x40;
    assert c == q * 0x40 + c % 0x40;
    assert q == (q / 0x40) * 0x40 + q % 0x40;
    assert q / 0x40 == c / 0x1000;
  }

  lemma Split4(c: int)
    requires 0x1_0000 <= c <= 0x10_FFFF
    ensures 0xF0 <= 0xF0 + c / 0x4_0000 < 0xF8
    ensures (c / 0x4_0000) * 0x4_0000 + ((c / 0x1000) % 0x40) * 0x1000 + ((c / 0x40) % 0x40) * 0x40 + c % 0x40 == c
  {
    var q := c / 0x40;
    var r := q / 0x40;
    assert c == q * 0x40 + c % 0x40;
    assert q == r * 0x40 + q % 0x40;
    assert r == (r / 0x40) * 0x40 + r % 0x40;
    assert r == c / 0x1000;
    assert r / 0x40 == c / 0x4_0000;
  }

  /** Decoding the bytes of a string gives the string back. */
  lemma {:induction false} DecodeEncode(s: string)
    ensures Decode(Encode(s)) == Some(s)
  {
    if s != [] {
      var head := EncodeChar(s[0]);
      DecodeEncodeChar(s[0], Encode(s[1..]));
      assert (head + Encode(s[1..]))[|head|..] == Encode(s[1..]);
      DecodeEncode(s[1..]);
      assert [s[0]] + s[1..] == s;
    }
  }
}
