/**
 * The single-byte encodings of Encodings/Iso8859_10.cs and
 * Encodings/Iso8859_14.cs: bytes below 0xA1 are the code points
 * themselves, the 95 bytes 0xA1-0xFF map through a table, and a character
 * that is neither encodes as '?' (0x3F).
 */
module SingleByte {
  import opened Base

  /** The first byte that goes through the table. */
  const LOW: int := 0xA1

  /** The byte written for a character the encoding cannot represent: '?'. */
  const UNMAPPED: byte := 0x3F

  /** A table of the 95 characters of bytes 0xA1-0xFF, all of them distinct and at or above 0xA1. */
  ghost predicate TableOk(T: seq<char>)
  {
    |T| == 95 && (forall i :: 0 <= i < |T| ==> T[i] as int >= LOW) &&
    forall i, j :: 0 <= i < j < |T| ==> T[i] != T[j]
  }

  /** Array.IndexOf(aboveA0, c). */
  function IndexIn(T: seq<char>, c: char): (i: int)
    ensures -1 <= i < |T|
    ensures i >= 0 ==> T[i] == c && forall j :: 0 <= j < i ==> T[j] != c
    ensures i < 0 <==> c !in T
  {
    FirstIndex((x: char) => x == c, T)
  }

  /** The byte GetBytes writes for c. */
  function EncodeChar(T: seq<char>, c: char): (b: byte)
    requires |T| == 95
  {
    if (c as int) < LOW then c as int
    else
      var i := IndexIn(T, c);
      if i < 0 then UNMAPPED else i + LOW
  }

  /** The character GetChars writes for b. */
  function DecodeByte(T: seq<char>, b: byte): (c: char)
    requires |T| == 95
  {
    if b < LOW then b as char else T[b - LOW]
  }

  function EncodeAll(T: seq<char>, cs: seq<char>): (bs: seq<byte>)
    requires |T| == 95
    ensures |bs| == |cs| && forall k :: 0 <= k < |cs| ==> bs[k] == EncodeChar(T, cs[k])
  {
    seq(|cs|, k requires 0 <= k < |cs| => EncodeChar(T, cs[k]))
  }

  function DecodeAll(T: seq<char>, bs: seq<byte>): (cs: seq<char>)
    requires |T| == 95
    ensures |cs| == |bs| && forall k :: 0 <= k < |bs| ==> cs[k] == DecodeByte(T, bs[k])
  {
    seq(|bs|, k requires 0 <= k < |bs| => DecodeByte(T, bs[k]))
  }

  /** Below 0xA1 both directions are the identity. */
  lemma LowIdentity(T: seq<char>, b: byte, c: char)
    requires |T| == 95
    ensures b < LOW ==> DecodeByte(T, b) as int == b
    ensures (c as int) < LOW ==> EncodeChar(T, c) == c as int
  {
  }

  /** A character at or above 0xA1 that is not in the table encodes as '?'. */
  lemma Unmapped(T: seq<char>, c: char)
    requires |T| == 95 && (c as int) >= LOW && c !in T
    ensures EncodeChar(T, c) == UNMAPPED
  {
  }

  /** Every byte survives decoding and encoding again when the table is distinct and above 0xA0. */
  lemma ByteRoundTrip(T: seq<char>, b: byte)
    requires TableOk(T)
    ensures EncodeChar(T, DecodeByte(T, b)) == b
  {
  }

  /** Every representable character survives encoding and decoding again, whatever the table. */
  lemma CharRoundTrip(T: seq<char>, c: char)
    requires |T| == 95 && ((c as int) < LOW || c in T)
    ensures DecodeByte(T, EncodeChar(T, c)) == c
  {
  }

  /** The round trip over a whole byte sequence. */
  lemma BytesRoundTrip(T: seq<char>, bs: seq<byte>)
    requires TableOk(T)
    ensures EncodeAll(T, DecodeAll(T, bs)) == bs
  {
    forall k | 0 <= k < |bs| ensures EncodeAll(T, DecodeAll(T, bs))[k] == bs[k] {
      ByteRoundTrip(T, bs[k]);
    }
  }

  /** GetByteCount and GetMaxByteCount: one byte per character, the count GetBytes writes. */
  function GetByteCount(T: seq<char>, chars: seq<char>, index: int, count: int): (r: int)
    requires |T| == 95
    ensures 0 <= index && 0 <= count && index + count <= |chars| ==> r == |EncodeAll(T, chars[index..index + count])|
  {
    count
  }

  /** GetCharCount and GetMaxCharCount: one character per byte, the count GetChars writes. */
  function GetCharCount(T: seq<char>, bytes: seq<byte>, index: int, count: int): (r: int)
    requires |T| == 95
    ensures 0 <= index && 0 <= count && index + count <= |bytes| ==> r == |DecodeAll(T, bytes[index..index + count])|
  {
    count
  }

  /**
   * GetBytes: writes the encoding of chars[charIndex..charIndex+charCount]
   * at bytes[byteIndex..] and returns charCount; a non-positive count writes nothing.
   */
  method GetBytes(T: seq<char>, chars: array<char>, charIndex: int, charCount: int, bytes: array<byte>, byteIndex: int)
    returns (n: int)
    requires |T| == 95
    requires charCount > 0 ==> 0 <= charIndex && charIndex + charCount <= chars.Length &&
                               0 <= byteIndex && byteIndex + charCount <= bytes.Length
    modifies bytes
    ensures n == charCount
    ensures charCount <= 0 ==> bytes[..] == old(bytes[..])
    ensures charCount > 0 ==>
      bytes[..] == old(bytes[..byteIndex]) + EncodeAll(T, chars[charIndex..charIndex + charCount]) +
                   old(bytes[byteIndex + charCount..])
  {
    var k := 0;
    if charCount > 0 {
      while k < charCount
        invariant 0 <= k <= charCount
        invariant bytes[..byteIndex] == old(bytes[..byteIndex])
        invariant bytes[byteIndex + k..] == old(bytes[byteIndex + k..])
        invariant forall m :: byteIndex <= m < byteIndex + k ==> bytes[m] == EncodeChar(T, chars[charIndex + (m - byteIndex)])
      {
        var c := chars[charIndex + k];
        var b: byte;
        if (c as int) < LOW {
          b := c as int;
        } else {
          var i := IndexIn(T, c);
          b := if i < 0 then UNMAPPED else i + LOW;
        }
        bytes[byteIndex + k] := b;
        k := k + 1;
      }
      assert bytes[byteIndex..byteIndex + charCount] == EncodeAll(T, chars[charIndex..charIndex + charCount]);
      assert bytes[..] == bytes[..byteIndex] + bytes[byteIndex..byteIndex + charCount] + bytes[byteIndex + charCount..];
    }
    n := charCount;
  }

  /**
   * GetChars: writes the decoding of bytes[byteIndex..byteIndex+byteCount]
   * at chars[charIndex..] and returns byteCount; a non-positive count writes nothing.
   */
  method GetChars(T: seq<char>, bytes: array<byte>, byteIndex: int, byteCount: int, chars: array<char>, charIndex: int)
    returns (n: int)
    requires |T| == 95
    requires byteCount > 0 ==> 0 <= byteIndex && byteIndex + byteCount <= bytes.Length &&
                               0 <= charIndex && charIndex + byteCount <= chars.Length
    modifies chars
    ensures n == byteCount
    ensures byteCount <= 0 ==> chars[..] == old(chars[..])
    ensures byteCount > 0 ==>
      chars[..] == old(chars[..charIndex]) + DecodeAll(T, bytes[byteIndex..byteIndex + byteCount]) +
                   old(chars[charIndex + byteCount..])
  {
    var k := 0;
    if byteCount > 0 {
      while k < byteCount
        invariant 0 <= k <= byteCount
        invariant chars[..charIndex] == old(chars[..charIndex])
        invariant chars[charIndex + k..] == old(chars[charIndex + k..])
        invariant forall m :: charIndex <= m < charIndex + k ==> chars[m] == DecodeByte(T, bytes[byteIndex + (m - charIndex)])
      {
        var b := bytes[byteIndex + k];
        chars[charIndex + k] := if b < LOW then b as char else T[b - LOW];
        k := k + 1;
      }
      assert chars[charIndex..charIndex + byteCount] == DecodeAll(T, bytes[byteIndex..byteIndex + byteCount]);
      assert chars[..] == chars[..charIndex] + chars[charIndex..charIndex + byteCount] + chars[charIndex + byteCount..];
    }
    n := byteCount;
  }
}

/** Encodings/Iso8859_10.cs: ISO/IEC 8859-10 (Latin-6), code page 28600. */
module Iso8859_10 {
  import SingleByte
  import opened Base

  const CODE_PAGE: int := 28600
  const NAME: string := "ISO-8859-10"

  /** aboveA0: the characters of bytes 0xA1-0xFF, as the ten lines of its initialiser. */
  const ABOVE_A0: seq<char> :=
    ROW_A1 + ROW_AB + ROW_B5 + ROW_BF + ROW_C9 +
    ROW_D3 + ROW_DD + ROW_E7 + ROW_F1 + ROW_FB

  /** The characters of bytes 0xA1-0xAA. */
  const ROW_A1: seq<char> := ['\U{0104}', '\U{0112}', '\U{0122}', '\U{012A}', '\U{0128}', '\U{0136}', '\U{00A7}', '\U{013B}', '\U{0110}', '\U{0160}']
  /** The characters of bytes 0xAB-0xB4. */
  const ROW_AB: seq<char> := ['\U{0166}', '\U{017D}', '\U{00AD}', '\U{016A}', '\U{014A}', '\U{00B0}', '\U{0105}', '\U{0113}', '\U{0123}', '\U{012B}']
  /** The characters of bytes 0xB5-0xBE. */
  const ROW_B5: seq<char> := ['\U{0129}', '\U{0137}', '\U{00B7}', '\U{013C}', '\U{0111}', '\U{0161}', '\U{0167}', '\U{017E}', '\U{2015}', '\U{016B}']
  /** The characters of bytes 0xBF-0xC8. */
  const ROW_BF: seq<char> := ['\U{014B}', '\U{0100}', '\U{00C1}', '\U{00C2}', '\U{00C3}', '\U{00C4}', '\U{00C5}', '\U{00C6}', '\U{012E}', '\U{010C}']
  /** The characters of bytes 0xC9-0xD2. */
  const ROW_C9: seq<char> := ['\U{00C9}', '\U{0118}', '\U{00CB}', '\U{0116}', '\U{00CD}', '\U{00CE}', '\U{00CF}', '\U{00D0}', '\U{0145}', '\U{014C}']
  /** The characters of bytes 0xD3-0xDC. */
  const ROW_D3: seq<char> := ['\U{00D3}', '\U{00D4}', '\U{00D5}', '\U{00D6}', '\U{0168}', '\U{00D8}', '\U{0172}', '\U{00DA}', '\U{00DB}', '\U{00DC}']
  /** The characters of bytes 0xDD-0xE6. */
  const ROW_DD: seq<char> := ['\U{00DD}', '\U{00DE}', '\U{00DF}', '\U{0101}', '\U{00E1}', '\U{00E2}', '\U{00E3}', '\U{00E4}', '\U{00E5}', '\U{00E6}']
  /** The characters of bytes 0xE7-0xF0. */
  const ROW_E7: seq<char> := ['\U{012F}', '\U{010D}', '\U{00E9}', '\U{0119}', '\U{00EB}', '\U{0117}', '\U{00ED}', '\U{00EE}', '\U{00EF}', '\U{00F0}']
  /** The characters of bytes 0xF1-0xFA. */
  const ROW_F1: seq<char> := ['\U{0146}', '\U{014D}', '\U{00F3}', '\U{00F4}', '\U{00F5}', '\U{00F6}', '\U{0169}', '\U{00F8}', '\U{0173}', '\U{00FA}']
  /** The characters of bytes 0xFB-0xFF. */
  const ROW_FB: seq<char> := ['\U{00FB}', '\U{00FC}', '\U{00FD}', '\U{00FE}', '\U{0138}']

  /**
   * The inverse of the table: the offset from 0xA1 of the byte each of its
   * characters decodes from. A character below 0x100 sits at its own code.
   */
  ghost function Position(c: char): int
  {
    if c as int < 0x100 then c as int - 0xA1
    else
      match c
        case '\U{0104}' => 0
        case '\U{0112}' => 1
        case '\U{0122}' => 2
        case '\U{012A}' => 3
        case '\U{0128}' => 4
        case '\U{0136}' => 5
        case '\U{013B}' => 7
        case '\U{0110}' => 8
        case '\U{0160}' => 9
        case '\U{0166}' => 10
        case '\U{017D}' => 11
        case '\U{016A}' => 13
        case '\U{014A}' => 14
        case '\U{0105}' => 16
        case '\U{0113}' => 17
        case '\U{0123}' => 18
        case '\U{012B}' => 19
        case '\U{0129}' => 20
        case '\U{0137}' => 21
        case '\U{013C}' => 23
        case '\U{0111}' => 24
        case '\U{0161}' => 25
        case '\U{0167}' => 26
        case '\U{017E}' => 27
        case '\U{2015}' => 28
        case '\U{016B}' => 29
        case '\U{014B}' => 30
        case '\U{0100}' => 31
        case '\U{012E}' => 38
        case '\U{010C}' => 39
        case '\U{0118}' => 41
        case '\U{0116}' => 43
        case '\U{0145}' => 48
        case '\U{014C}' => 49
        case '\U{0168}' => 54
        case '\U{0172}' => 56
        case '\U{0101}' => 63
        case '\U{012F}' => 70
        case '\U{010D}' => 71
        case '\U{0119}' => 73
        case '\U{0117}' => 75
        case '\U{0146}' => 80
        case '\U{014D}' => 81
        case '\U{0169}' => 86
        case '\U{0173}' => 88
        case '\U{0138}' => 94
        case _ => -1
  }

  lemma RowA1Positions()
    ensures forall i :: 0 <= i < |ROW_A1| ==> ROW_A1[i] as int >= 0xA1 && Position(ROW_A1[i]) == 0 + i
  {
  }

  lemma RowABPositions()
    ensures forall i :: 0 <= i < |ROW_AB| ==> ROW_AB[i] as int >= 0xA1 && Position(ROW_AB[i]) == 10 + i
  {
  }

  lemma RowB5Positions()
    ensures forall i :: 0 <= i < |ROW_B5| ==> ROW_B5[i] as int >= 0xA1 && Position(ROW_B5[i]) == 20 + i
  {
  }

  lemma RowBFPositions()
    ensures forall i :: 0 <= i < |ROW_BF| ==> ROW_BF[i] as int >= 0xA1 && Position(ROW_BF[i]) == 30 + i
  {
  }

  lemma RowC9Positions()
    ensures forall i :: 0 <= i < |ROW_C9| ==> ROW_C9[i] as int >= 0xA1 && Position(ROW_C9[i]) == 40 + i
  {
  }

  lemma RowD3Positions()
    ensures forall i :: 0 <= i < |ROW_D3| ==> ROW_D3[i] as int >= 0xA1 && Position(ROW_D3[i]) == 50 + i
  {
  }

  lemma RowDDPositions()
    ensures forall i :: 0 <= i < |ROW_DD| ==> ROW_DD[i] as int >= 0xA1 && Position(ROW_DD[i]) == 60 + i
  {
  }

  lemma RowE7Positions()
    ensures forall i :: 0 <= i < |ROW_E7| ==> ROW_E7[i] as int >= 0xA1 && Position(ROW_E7[i]) == 70 + i
  {
  }

  lemma RowF1Positions()
    ensures forall i :: 0 <= i < |ROW_F1| ==> ROW_F1[i] as int >= 0xA1 && Position(ROW_F1[i]) == 80 + i
  {
  }

  lemma RowFBPositions()
    ensures forall i :: 0 <= i < |ROW_FB| ==> ROW_FB[i] as int >= 0xA1 && Position(ROW_FB[i]) == 90 + i
  {
  }

  /** aboveA0 is a table the round trip holds for: 95 distinct characters, all at or above 0xA1. */
  lemma AboveA0Ok()
    ensures SingleByte.TableOk(ABOVE_A0)
  {
    RowA1Positions(); RowABPositions(); RowB5Positions(); RowBFPositions(); RowC9Positions();
    RowD3Positions(); RowDDPositions(); RowE7Positions(); RowF1Positions(); RowFBPositions();
    assert forall i :: 0 <= i < |ABOVE_A0| ==> ABOVE_A0[i] as int >= 0xA1 && Position(ABOVE_A0[i]) == i;
    forall i, j | 0 <= i < j < |ABOVE_A0|
      ensures ABOVE_A0[i] != ABOVE_A0[j]
    {
      assert Position(ABOVE_A0[i]) != Position(ABOVE_A0[j]);
    }
  }

  /** Every byte survives decoding and encoding again with this table. */
  lemma RoundTrip(b: byte)
    ensures SingleByte.EncodeChar(ABOVE_A0, SingleByte.DecodeByte(ABOVE_A0, b)) == b
  {
    AboveA0Ok();
    SingleByte.ByteRoundTrip(ABOVE_A0, b);
  }
}

/** Encodings/Iso8859_14.cs: ISO/IEC 8859-14 (Latin-8), code page 28604. */
module Iso8859_14 {
  import SingleByte
  import opened Base

  const CODE_PAGE: int := 28604
  const NAME: string := "ISO-8859-14"

  /** aboveA0: the characters of bytes 0xA1-0xFF, as the ten lines of its initialiser. */
  const ABOVE_A0: seq<char> :=
    ROW_A1 + ROW_AB + ROW_B5 + ROW_BF + ROW_C9 +
    ROW_D3 + ROW_DD + ROW_E7 + ROW_F1 + ROW_FB

  /** The characters of bytes 0xA1-0xAA. */
  const ROW_A1: seq<char> := ['\U{1E02}', '\U{1E03}', '\U{00A3}', '\U{010A}', '\U{010B}', '\U{1E0A}', '\U{00A7}', '\U{1E80}', '\U{00A9}', '\U{1E82}']
  /** The characters of bytes 0xAB-0xB4. */
  const ROW_AB: seq<char> := ['\U{1E0B}', '\U{1EF2}', '\U{00AD}', '\U{00AE}', '\U{0178}', '\U{1E1E}', '\U{1E1F}', '\U{0120}', '\U{0121}', '\U{1E40}']
  /** The characters of bytes 0xB5-0xBE. */
  const ROW_B5: seq<char> := ['\U{1E41}', '\U{00B6}', '\U{1E56}', '\U{1E81}', '\U{1E57}', '\U{1E83}', '\U{1E60}', '\U{1EF3}', '\U{1E84}', '\U{1E85}']
  /** The characters of bytes 0xBF-0xC8. */
  const ROW_BF: seq<char> := ['\U{1E61}', '\U{00C0}', '\U{00C1}', '\U{00C2}', '\U{00C3}', '\U{00C4}', '\U{00C5}', '\U{00C6}', '\U{00C7}', '\U{00C8}']
  /** The characters of bytes 0xC9-0xD2. */
  const ROW_C9: seq<char> := ['\U{00C9}', '\U{00CA}', '\U{00CB}', '\U{00CC}', '\U{00CD}', '\U{00CE}', '\U{00CF}', '\U{0174}', '\U{00D1}', '\U{00D2}']
  /** The characters of bytes 0xD3-0xDC. */
  const ROW_D3: seq<char> := ['\U{00D3}', '\U{00D4}', '\U{00D5}', '\U{00D6}', '\U{1E6A}', '\U{00D8}', '\U{00D9}', '\U{00DA}', '\U{00DB}', '\U{00DC}']
  /** The characters of bytes 0xDD-0xE6. */
  const ROW_DD: seq<char> := ['\U{00DD}', '\U{0176}', '\U{00DF}', '\U{00E0}', '\U{00E1}', '\U{00E2}', '\U{00E3}', '\U{00E4}', '\U{00E5}', '\U{00E6}']
  /** The characters of bytes 0xE7-0xF0. */
  const ROW_E7: seq<char> := ['\U{00E7}', '\U{00E8}', '\U{00E9}', '\U{00EA}', '\U{00EB}', '\U{00EC}', '\U{00ED}', '\U{00EE}', '\U{00EF}', '\U{0175}']
  /** The characters of bytes 0xF1-0xFA. */
  const ROW_F1: seq<char> := ['\U{00F1}', '\U{00F2}', '\U{00F3}', '\U{00F4}', '\U{00F5}', '\U{00F6}', '\U{1E6B}', '\U{00F8}', '\U{00F9}', '\U{00FA}']
  /** The characters of bytes 0xFB-0xFF. */
  const ROW_FB: seq<char> := ['\U{00FB}', '\U{00FC}', '\U{00FD}', '\U{0177}', '\U{00FF}']

  /**
   * The inverse of the table: the offset from 0xA1 of the byte each of its
   * characters decodes from. A character below 0x100 sits at its own code.
   */
  ghost function Position(c: char): int
  {
    if c as int < 0x100 then c as int - 0xA1
    else
      match c
        case '\U{1E02}' => 0
        case '\U{1E03}' => 1
        case '\U{010A}' => 3
        case '\U{010B}' => 4
        case '\U{1E0A}' => 5
        case '\U{1E80}' => 7
        case '\U{1E82}' => 9
        case '\U{1E0B}' => 10
        case '\U{1EF2}' => 11
        case '\U{0178}' => 14
        case '\U{1E1E}' => 15
        case '\U{1E1F}' => 16
        case '\U{0120}' => 17
        case '\U{0121}' => 18
        case '\U{1E40}' => 19
        case '\U{1E41}' => 20
        case '\U{1E56}' => 22
        case '\U{1E81}' => 23
        case '\U{1E57}' => 24
        case '\U{1E83}' => 25
        case '\U{1E60}' => 26
        case '\U{1EF3}' => 27
        case '\U{1E84}' => 28
        case '\U{1E85}' => 29
        case '\U{1E61}' => 30
        case '\U{0174}' => 47
        case '\U{1E6A}' => 54
        case '\U{0176}' => 61
        case '\U{0175}' => 79
        case '\U{1E6B}' => 86
        case '\U{0177}' => 93
        case _ => -1
  }

  lemma RowA1Positions()
    ensures forall i :: 0 <= i < |ROW_A1| ==> ROW_A1[i] as int >= 0xA1 && Position(ROW_A1[i]) == 0 + i
  {
  }

  lemma RowABPositions()
    ensures forall i :: 0 <= i < |ROW_AB| ==> ROW_AB[i] as int >= 0xA1 && Position(ROW_AB[i]) == 10 + i
  {
  }

  lemma RowB5Positions()
    ensures forall i :: 0 <= i < |ROW_B5| ==> ROW_B5[i] as int >= 0xA1 && Position(ROW_B5[i]) == 20 + i
  {
  }

  lemma RowBFPositions()
    ensures forall i :: 0 <= i < |ROW_BF| ==> ROW_BF[i] as int >= 0xA1 && Position(ROW_BF[i]) == 30 + i
  {
  }

  lemma RowC9Positions()
    ensures forall i :: 0 <= i < |ROW_C9| ==> ROW_C9[i] as int >= 0xA1 && Position(ROW_C9[i]) == 40 + i
  {
  }

  lemma RowD3Positions()
    ensures forall i :: 0 <= i < |ROW_D3| ==> ROW_D3[i] as int >= 0xA1 && Position(ROW_D3[i]) == 50 + i
  {
  }

  lemma RowDDPositions()
    ensures forall i :: 0 <= i < |ROW_DD| ==> ROW_DD[i] as int >= 0xA1 && Position(ROW_DD[i]) == 60 + i
  {
  }

  lemma RowE7Positions()
    ensures forall i :: 0 <= i < |ROW_E7| ==> ROW_E7[i] as int >= 0xA1 && Position(ROW_E7[i]) == 70 + i
  {
  }

  lemma RowF1Positions()
    ensures forall i :: 0 <= i < |ROW_F1| ==> ROW_F1[i] as int >= 0xA1 && Position(ROW_F1[i]) == 80 + i
  {
  }

  lemma RowFBPositions()
    ensures forall i :: 0 <= i < |ROW_FB| ==> ROW_FB[i] as int >= 0xA1 && Position(ROW_FB[i]) == 90 + i
  {
  }

  /** aboveA0 is a table the round trip holds for: 95 distinct characters, all at or above 0xA1. */
  lemma AboveA0Ok()
    ensures SingleByte.TableOk(ABOVE_A0)
  {
    RowA1Positions(); RowABPositions(); RowB5Positions(); RowBFPositions(); RowC9Positions();
    RowD3Positions(); RowDDPositions(); RowE7Positions(); RowF1Positions(); RowFBPositions();
    assert forall i :: 0 <= i < |ABOVE_A0| ==> ABOVE_A0[i] as int >= 0xA1 && Position(ABOVE_A0[i]) == i;
    forall i, j | 0 <= i < j < |ABOVE_A0|
      ensures ABOVE_A0[i] != ABOVE_A0[j]
    {
      assert Position(ABOVE_A0[i]) != Position(ABOVE_A0[j]);
    }
  }

  /** Every byte survives decoding and encoding again with this table. */
  lemma RoundTrip(b: byte)
    ensures SingleByte.EncodeChar(ABOVE_A0, SingleByte.DecodeByte(ABOVE_A0, b)) == b
  {
    AboveA0Ok();
    SingleByte.ByteRoundTrip(ABOVE_A0, b);
  }
}
