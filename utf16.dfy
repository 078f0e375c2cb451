/**
  UTF-16 as Python's `str.encode("utf-16")` produces it on a little-endian
  host: the byte order mark FF FE, then each character as one code unit, or
  as a surrogate pair when it lies above U+FFFF (section 2.1 of RFC 2781),
  each unit written low octet first. The decoder is the strict inverse.
 */
module Utf16 {
  import opened Wrappers
  import opened Bytes

  type CodeUnit = u: int | 0 <= u < 0x1_0000

  /** The byte order mark U+FEFF, serialised little-endian. */
  const Bom: seq<Byte> := [0xFF, 0xFE]

  predicate IsHighSurrogate(u: CodeUnit) { 0xD800 <= u < 0xDC00 }
  predicate IsLowSurrogate(u: CodeUnit) { 0xDC00 <= u < 0xE000 }

  /** The code units of one character: itself below U+10000, else a high and a low surrogate. */
  function CharUnits(c: char): (us: seq<CodeUnit>)
    ensures |us| == 1 <==> (c as int) < 0x1_0000
    ensures |us| == 1 ==> us[0] as int == c as int && !IsHighSurrogate(us[0]) && !IsLowSurrogate(us[0])
    ensures |us| == 2 ==> IsHighSurrogate(us[0]) && IsLowSurrogate(us[1])
  {
    var v := c as int;
    if v < 0x1_0000 then [v]
    else [0xD800 + (v - 0x1_0000) / 0x400, 0xDC00 + (v - 0x1_0000) % 0x400]
  }

  /** The code units of a text, character by character. */
  function Units(s: string): seq<CodeUnit>
  {
    if s == [] then [] else CharUnits(s[0]) + Units(s[1..])
  }

  /** Each code unit as two octets, low octet first. */
  function UnitOctets(us: seq<CodeUnit>): (bs: seq<Byte>)
    ensures |bs| == 2 * |us|
  {
    if us == [] then [] else [us[0] % 256, us[0] / 256] + UnitOctets(us[1..])
  }

  /**
    The UTF-16 encoding of `s`: the byte order mark, then whole code units,
    two to four octets per character.
   */
  function Encode(s: string): (bs: seq<Byte>)
    ensures |bs| >= 2 && bs[..2] == Bom
    ensures |bs| % 2 == 0
    ensures 2 + 2 * |s| <= |bs| <= 2 + 4 * |s|
  {
    UnitsLength(s);
    Bom + UnitOctets(Units(s))
  }

  /** The code unit written as the octets `lo`, `hi`. */
  function LittleEndianUnit(lo: Byte, hi: Byte): CodeUnit
  {
    lo as int + 256 * hi as int
  }

  /** The scalar value a surrogate pair stands for, in U+10000 .. U+10FFFF. */
  function PairScalar(high: CodeUnit, low: CodeUnit): (v: int)
    requires IsHighSurrogate(high) && IsLowSurrogate(low)
    ensures 0x1_0000 <= v < 0x11_0000
  {
    0x1_0000 + (high as int - 0xD800) * 0x400 + (low as int - 0xDC00)
  }

  /** The code units in little-endian octets, or None for an odd number of octets. */
  function OctetUnits(bs: seq<Byte>): Option<seq<CodeUnit>>
  {
    if bs == [] then Some([])
    else if |bs| == 1 then None
    else
      match OctetUnits(bs[2..])
      case None => None
      case Some(rest) => Some([LittleEndianUnit(bs[0], bs[1])] + rest)
  }

  /** The characters of a code unit sequence, or None when a surrogate is unpaired. */
  function UnitChars(us: seq<CodeUnit>): Option<string>
  {
    if us == [] then Some([])
    else if IsLowSurrogate(us[0]) then None
    else if IsHighSurrogate(us[0]) then
      if |us| < 2 || !IsLowSurrogate(us[1]) then None
      else
        match UnitChars(us[2..])
        case None => None
        case Some(rest) => Some([PairScalar(us[0], us[1]) as char] + rest)
    else
      match UnitChars(us[1..])
      case None => None
      case Some(rest) => Some([us[0] as char] + rest)
  }

  /** The text that `bs` encodes, or None when it is not a BOM-prefixed little-endian UTF-16 encoding. */
  function Decode(bs: seq<Byte>): Option<string>
  {
    if |bs| < 2 || bs[..2] != Bom then None
    else
      match OctetUnits(bs[2..])
      case None => None
      case Some(us) => UnitChars(us)
  }

  /** Every character takes one or two code units. */
  lemma {:induction false} UnitsLength(s: string)
    ensures |s| <= |Units(s)| <= 2 * |s|
  {
    if s != [] {
      UnitsLength(s[1..]);
    }
  }

  /** Reading octets back as little-endian units undoes writing them. */
  lemma {:induction false} OctetUnitsOfUnitOctets(us: seq<CodeUnit>)
    ensures OctetUnits(UnitOctets(us)) == Some(us)
  {
    if us != [] {
      var bs := UnitOctets(us);
      assert bs[2..] == UnitOctets(us[1..]);
      OctetUnitsOfUnitOctets(us[1..]);
      assert [us[0]] + us[1..] == us;
    }
  }

  /** Octets read as units are exactly the octets those units write. */
  lemma {:induction false} UnitOctetsOfOctetUnits(bs: seq<Byte>, us: seq<CodeUnit>)
    requires OctetUnits(bs) == Some(us)
    ensures UnitOctets(us) == bs
  {
    if bs != [] {
      assert |bs| >= 2;
      var rest :| OctetUnits(bs[2..]) == Some(rest);
      UnitOctetsOfOctetUnits(bs[2..], rest);
      assert us == [LittleEndianUnit(bs[0], bs[1])] + rest;
      assert bs == [bs[0], bs[1]] + bs[2..];
    }
  }

  /** A surrogate pair decodes back to the character it encodes. */
  lemma CharOfPair(c: char)
    requires (c as int) >= 0x1_0000
    ensures var us := CharUnits(c);
      PairScalar(us[0], us[1]) == c as int
  {
  }

  /** Reading one character's units in front of readable units reads that character first. */
  lemma UnitCharsOfChar(c: char, rest: seq<CodeUnit>, t: string)
    requires UnitChars(rest) == Some(t)
    ensures UnitChars(CharUnits(c) + rest) == Some([c] + t)
  {
    var us := CharUnits(c) + rest;
    if (c as int) >= 0x1_0000 {
      CharOfPair(c);
      assert us[2..] == rest;
    } else {
      assert us[1..] == rest;
    }
  }

  /** Reading the code units of a text gives the text back. */
  lemma {:induction false} UnitCharsOfUnits(s: string)
    ensures UnitChars(Units(s)) == Some(s)
  {
    if s != [] {
      UnitCharsOfUnits(s[1..]);
      UnitCharsOfChar(s[0], Units(s[1..]), s[1..]);
      assert [s[0]] + s[1..] == s;
    }
  }

  /** A surrogate pair is the pair of units of the character it stands for. */
  lemma PairUnits(high: CodeUnit, low: CodeUnit)
    requires IsHighSurrogate(high) && IsLowSurrogate(low)
    ensures CharUnits(PairScalar(high, low) as char) == [high, low]
  {
  }

  /** Units the reader accepts are exactly the units of the text it reads. */
  lemma {:induction false} UnitsOfUnitChars(us: seq<CodeUnit>, s: string)
    requires UnitChars(us) == Some(s)
    ensures Units(s) == us
  {
    if us != [] {
      if IsHighSurrogate(us[0]) {
        assert UnitChars(us[2..]).Some?;
        var rest := UnitChars(us[2..]).value;
        UnitsOfUnitChars(us[2..], rest);
        var c := PairScalar(us[0], us[1]) as char;
        PairUnits(us[0], us[1]);
        assert s == [c] + rest;
        assert us == [us[0], us[1]] + us[2..];
      } else {
        assert UnitChars(us[1..]).Some?;
        var rest := UnitChars(us[1..]).value;
        UnitsOfUnitChars(us[1..], rest);
        var c := us[0] as char;
        assert s == [c] + rest;
        assert us == [us[0]] + us[1..];
      }
    }
  }

  /** Decoding undoes encoding. */
  lemma DecodeEncode(s: string)
    ensures Decode(Encode(s)) == Some(s)
  {
    var bs := Encode(s);
    assert bs[..2] == Bom && bs[2..] == UnitOctets(Units(s));
    OctetUnitsOfUnitOctets(Units(s));
    UnitCharsOfUnits(s);
  }

  /** Every octet sequence the decoder accepts is the encoding of the text it decodes to. */
  lemma EncodeDecode(bs: seq<Byte>, s: string)
    requires Decode(bs) == Some(s)
    ensures Encode(s) == bs
  {
    var us :| OctetUnits(bs[2..]) == Some(us);
    UnitOctetsOfOctetUnits(bs[2..], us);
    UnitsOfUnitChars(us, s);
    assert bs == bs[..2] + bs[2..];
  }
}
