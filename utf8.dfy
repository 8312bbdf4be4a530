/** The bytes of a key, as `[]byte(key)` produces them: the UTF-8 encoding of
    its characters (Dafny characters are Unicode scalar values). */
module Utf8 {

  /** A byte with the given numeric value. */
  function Byte(x: int): bv8
    requires 0 <= x < 0x100
  {
    x as bv8
  }

  function EncodeChar(c: char): (b: seq<bv8>)
    ensures 1 <= |b| <= 4
  {
    var cp := c as int;
    if cp < 0x80 then
      [Byte(cp)]
    else if cp < 0x800 then
      [Byte(0xC0 + cp / 0x40), Byte(0x80 + cp % 0x40)]
    else if cp < 0x10000 then
      [Byte(0xE0 + cp / 0x1000), Byte(0x80 + cp / 0x40 % 0x40), Byte(0x80 + cp % 0x40)]
    else
      [Byte(0xF0 + cp / 0x40000), Byte(0x80 + cp / 0x1000 % 0x40),
       Byte(0x80 + cp / 0x40 % 0x40), Byte(0x80 + cp % 0x40)]
  }

  /** The code point of one encoded character; the inverse of EncodeChar. */
  function DecodeChar(b: seq<bv8>): int
    requires 1 <= |b| <= 4
  {
    if |b| == 1 then b[0] as int
    else if |b| == 2 then (b[0] as int - 0xC0) * 0x40 + (b[1] as int - 0x80)
    else if |b| == 3 then
      (b[0] as int - 0xE0) * 0x1000 + (b[1] as int - 0x80) * 0x40 + (b[2] as int - 0x80)
    else
      (b[0] as int - 0xF0) * 0x40000 + (b[1] as int - 0x80) * 0x1000
        + (b[2] as int - 0x80) * 0x40 + (b[3] as int - 0x80)
  }

  lemma ByteValue(x: int)
    requires 0 <= x < 0x100
    ensures Byte(x) as int == x
  {
  }

  lemma DivDiv(cp: int)
    requires cp >= 0
    ensures cp / 0x40 / 0x40 == cp / 0x1000
    ensures cp / 0x40 / 0x40 / 0x40 == cp / 0x40000
  {
  }

  /** cp in base 64, split into the continuation groups UTF-8 uses. */
  lemma SixBitGroups(cp: int)
    requires 0 <= cp
    ensures cp == cp / 0x1000 * 0x1000 + cp / 0x40 % 0x40 * 0x40 + cp % 0x40
    ensures cp == cp / 0x40000 * 0x40000 + cp / 0x1000 % 0x40 * 0x1000 + cp / 0x40 % 0x40 * 0x40 + cp % 0x40
  {
    var q := cp / 0x40;
    var q2 := q / 0x40;
    assert cp == q * 0x40 + cp % 0x40;
    assert q == q2 * 0x40 + q % 0x40;
    assert q2 == q2 / 0x40 * 0x40 + q2 % 0x40;
    DivDiv(cp);
  }

  lemma DecodeThree(b0: int, b1: int, b2: int)
    requires 0 <= b0 < 0x10 && 0 <= b1 < 0x40 && 0 <= b2 < 0x40
    ensures DecodeChar([Byte(0xE0 + b0), Byte(0x80 + b1), Byte(0x80 + b2)])
         == b0 * 0x1000 + b1 * 0x40 + b2
  {
    ByteValue(0xE0 + b0);
    ByteValue(0x80 + b1);
    ByteValue(0x80 + b2);
  }

  lemma DecodeFour(b0: int, b1: int, b2: int, b3: int)
    requires 0 <= b0 < 0x8 && 0 <= b1 < 0x40 && 0 <= b2 < 0x40 && 0 <= b3 < 0x40
    ensures DecodeChar([Byte(0xF0 + b0), Byte(0x80 + b1), Byte(0x80 + b2), Byte(0x80 + b3)])
         == b0 * 0x40000 + b1 * 0x1000 + b2 * 0x40 + b3
  {
    ByteValue(0xF0 + b0);
    ByteValue(0x80 + b1);
    ByteValue(0x80 + b2);
    ByteValue(0x80 + b3);
  }

  lemma DecodeEncodeChar(c: char)
    ensures DecodeChar(EncodeChar(c)) == c as int
  {
    var cp := c as int;
    if cp < 0x80 {
      ByteValue(cp);
    } else if cp < 0x800 {
      ByteValue(0xC0 + cp / 0x40);
      ByteValue(0x80 + cp % 0x40);
    } else if cp < 0x10000 {
      SixBitGroups(cp);
      DecodeThree(cp / 0x1000, cp / 0x40 % 0x40, cp % 0x40);
    } else {
      SixBitGroups(cp);
      DecodeFour(cp / 0x40000, cp / 0x1000 % 0x40, cp / 0x40 % 0x40, cp % 0x40);
    }
  }

  function Encode(s: string): (b: seq<bv8>)
    ensures |s| <= |b| <= 4 * |s|
  {
    if s == [] then [] else EncodeChar(s[0]) + Encode(s[1..])
  }

  /** Encoding a concatenation concatenates the encodings. */
  lemma {:induction false} EncodeAppend(a: string, b: string)
    ensures Encode(a + b) == Encode(a) + Encode(b)
  {
    if a == [] {
      assert a + b == b;
    } else {
      assert (a + b)[1..] == a[1..] + b;
      EncodeAppend(a[1..], b);
    }
  }

  /** An ASCII string encodes to one byte per character, its code. */
  lemma {:induction false} EncodeAscii(s: string)
    requires forall i :: 0 <= i < |s| ==> s[i] < 128 as char
    ensures Encode(s) == seq(|s|, i requires 0 <= i < |s| => Byte(s[i] as int))
  {
    if s != [] {
      EncodeAscii(s[1..]);
    }
  }
}
