/**
  Base 64 encoding with the standard alphabet and `=` padding, as in section 4
  of RFC 4648 (Python's `base64.b64encode`). The decoder is the strict inverse:
  it accepts exactly the canonical encodings, so the round trip is proved in
  both directions.
 */
module Base64 {
  import opened Wrappers
  import opened Bytes

  /** A 6-bit group, the index of one symbol of the alphabet. */
  type Sextet = i: int | 0 <= i < 64

  const Pad: char := '='

  /** The symbol of the alphabet of RFC 4648, section 4, Table 1, for index `i`. */
  function Symbol(i: Sextet): (c: char)
    ensures c != Pad
  {
    if i < 26 then (65 + i) as char            // 'A' .. 'Z'
    else if i < 52 then (97 + i - 26) as char  // 'a' .. 'z'
    else if i < 62 then (48 + i - 52) as char  // '0' .. '9'
    else if i == 62 then '+'
    else '/'
  }

  /** The index of symbol `c`, or None when `c` is not in the alphabet. */
  function SymbolValue(c: char): (r: Option<Sextet>)
    ensures c == Pad ==> r == None
  {
    if 'A' <= c <= 'Z' then Some(c as int - 65)
    else if 'a' <= c <= 'z' then Some(c as int - 97 + 26)
    else if '0' <= c <= '9' then Some(c as int - 48 + 52)
    else if c == '+' then Some(62)
    else if c == '/' then Some(63)
    else None
  }

  /** The alphabet and its lookup are inverse bijections between indices and symbols. */
  lemma SymbolBijection(i: Sextet, c: char)
    ensures SymbolValue(Symbol(i)) == Some(i)
    ensures SymbolValue(c) == Some(i) ==> Symbol(i) == c
  {
  }

  /**
    One to three octets become one quantum of four characters: their bits,
    high bits first and zero-filled, split into 6-bit groups; a quantum of
    fewer than three octets ends in `=` padding.
   */
  function EncodeQuantum(group: seq<Byte>): (q: string)
    requires 1 <= |group| <= 3
    ensures |q| == 4
  {
    var b0 := group[0];
    var b1 := if |group| > 1 then group[1] else 0;
    var b2 := if |group| > 2 then group[2] else 0;
    var symbols := [Symbol(b0 / 4), Symbol((b0 % 4) * 16 + b1 / 16), Symbol((b1 % 16) * 4 + b2 / 64), Symbol(b2 % 64)];
    if |group| == 3 then symbols
    else if |group| == 2 then symbols[..3] + [Pad]
    else symbols[..2] + [Pad, Pad]
  }

  /** The encoding of `bytes`, three octets to a quantum. */
  function Encode(bytes: seq<Byte>): (s: string)
    ensures |s| == 4 * ((|bytes| + 2) / 3)
    ensures |s| % 4 == 0 && (bytes != [] ==> |s| >= 4)
  {
    if bytes == [] then []
    else
      var n := if |bytes| < 3 then |bytes| else 3;
      var rest := Encode(bytes[n..]);
      assert (|bytes| + 2) / 3 == (|bytes| - n + 2) / 3 + 1;
      EncodeQuantum(bytes[..n]) + rest
  }

  /**
    Decodes one quantum of four characters. Padding is accepted only in the
    `final` quantum, and only with the unused low bits of the last symbol zero.
   */
  function DecodeQuantum(q: string, final: bool): Option<seq<Byte>>
    requires |q| == 4
  {
    match (SymbolValue(q[0]), SymbolValue(q[1]), SymbolValue(q[2]), SymbolValue(q[3]))
    case (Some(i0), Some(i1), Some(i2), Some(i3)) =>
      Some(Octets(i0, i1, i2, i3))
    case (Some(i0), Some(i1), Some(i2), None) =>
      if final && q[3] == Pad && i2 % 4 == 0 then Some(Octets(i0, i1, i2, 0)[..2]) else None
    case (Some(i0), Some(i1), None, None) =>
      if final && q[2] == Pad && q[3] == Pad && i1 % 16 == 0 then Some(Octets(i0, i1, 0, 0)[..1]) else None
    case _ => None
  }

  /** Four 6-bit groups, high bits first, reassembled into three octets. */
  function Octets(i0: Sextet, i1: Sextet, i2: Sextet, i3: Sextet): (bs: seq<Byte>)
    ensures |bs| == 3
  {
    [i0 * 4 + i1 / 16, (i1 % 16) * 16 + i2 / 4, (i2 % 4) * 64 + i3]
  }

  /** Splitting three octets into sextets and reassembling them gives the octets back. */
  lemma OctetsOfGroup(b0: Byte, b1: Byte, b2: Byte)
    ensures Octets(b0 / 4, (b0 % 4) * 16 + b1 / 16, (b1 % 16) * 4 + b2 / 64, b2 % 64) == [b0, b1, b2]
  {
    var i1, i2 := (b0 % 4) * 16 + b1 / 16, (b1 % 16) * 4 + b2 / 64;
    assert i1 / 16 == b0 % 4 && i1 % 16 == b1 / 16;
    assert i2 / 4 == b1 % 16 && i2 % 4 == b2 / 64;
  }

  /** Reassembling four sextets and splitting the octets again gives the sextets back. */
  lemma GroupOfOctets(i0: Sextet, i1: Sextet, i2: Sextet, i3: Sextet)
    ensures var bs := Octets(i0, i1, i2, i3);
      && bs[0] / 4 == i0
      && (bs[0] % 4) * 16 + bs[1] / 16 == i1
      && (bs[1] % 16) * 4 + bs[2] / 64 == i2
      && bs[2] % 64 == i3
  {
    var x0, x1, x2 := i0 * 4 + i1 / 16, (i1 % 16) * 16 + i2 / 4, (i2 % 4) * 64 + i3;
    assert x0 / 4 == i0 && x0 % 4 == i1 / 16;
    assert x1 / 16 == i1 % 16 && x1 % 16 == i2 / 4;
    assert x2 / 64 == i2 % 4 && x2 % 64 == i3;
  }

  /** The octets that `s` encodes, or None when `s` is not a canonical encoding. */
  function Decode(s: string): Option<seq<Byte>>
  {
    if s == [] then Some([])
    else if |s| < 4 then None
    else
      match DecodeQuantum(s[..4], |s| == 4)
      case None => None
      case Some(head) =>
        match Decode(s[4..])
        case None => None
        case Some(tail) => Some(head + tail)
  }

  /** Decoding the quantum of three octets gives them back. */
  lemma DecodeEncodeTriple(b0: Byte, b1: Byte, b2: Byte, final: bool)
    ensures DecodeQuantum(EncodeQuantum([b0, b1, b2]), final) == Some([b0, b1, b2])
  {
    var i0, i1, i2, i3 := b0 / 4, (b0 % 4) * 16 + b1 / 16, (b1 % 16) * 4 + b2 / 64, b2 % 64;
    SymbolBijection(i0, ' ');
    SymbolBijection(i1, ' ');
    SymbolBijection(i2, ' ');
    SymbolBijection(i3, ' ');
    OctetsOfGroup(b0, b1, b2);
    var q := EncodeQuantum([b0, b1, b2]);
    assert q == [Symbol(i0), Symbol(i1), Symbol(i2), Symbol(i3)];
  }

  /** Decoding the final quantum of two octets, padded once, gives them back. */
  lemma DecodeEncodePair(b0: Byte, b1: Byte)
    ensures DecodeQuantum(EncodeQuantum([b0, b1]), true) == Some([b0, b1])
  {
    var i0, i1, i2 := b0 / 4, (b0 % 4) * 16 + b1 / 16, (b1 % 16) * 4;
    SymbolBijection(i0, ' ');
    SymbolBijection(i1, ' ');
    SymbolBijection(i2, ' ');
    var q := EncodeQuantum([b0, b1]);
    assert q == [Symbol(i0), Symbol(i1), Symbol(i2), Pad];
    assert SymbolValue(q[0]) == Some(i0) && SymbolValue(q[1]) == Some(i1);
    assert SymbolValue(q[2]) == Some(i2) && SymbolValue(q[3]) == None;
    assert i1 / 16 == b0 % 4 && i1 % 16 == b1 / 16;
    assert i2 / 4 == b1 % 16 && i2 % 4 == 0;
    assert Octets(i0, i1, i2, 0)[..2] == [i0 * 4 + i1 / 16, (i1 % 16) * 16 + i2 / 4] == [b0, b1];
    assert DecodeQuantum(q, true) == Some(Octets(i0, i1, i2, 0)[..2]);
  }

  /** Decoding the final quantum of one octet, padded twice, gives it back. */
  lemma DecodeEncodeSingle(b0: Byte)
    ensures DecodeQuantum(EncodeQuantum([b0]), true) == Some([b0])
  {
    var i0, i1 := b0 / 4, (b0 % 4) * 16;
    SymbolBijection(i0, ' ');
    SymbolBijection(i1, ' ');
    var q := EncodeQuantum([b0]);
    assert q == [Symbol(i0), Symbol(i1), Pad, Pad];
    assert SymbolValue(q[0]) == Some(i0) && SymbolValue(q[1]) == Some(i1);
    assert SymbolValue(q[2]) == None && SymbolValue(q[3]) == None;
    assert i1 / 16 == b0 % 4 && i1 % 16 == 0;
    assert Octets(i0, i1, 0, 0)[..1] == [i0 * 4 + i1 / 16] == [b0];
    assert DecodeQuantum(q, true) == Some(Octets(i0, i1, 0, 0)[..1]);
  }

  /** Decoding one quantum undoes its encoding. */
  lemma DecodeEncodeQuantum(group: seq<Byte>, final: bool)
    requires 1 <= |group| <= 3
    requires |group| < 3 ==> final
    ensures DecodeQuantum(EncodeQuantum(group), final) == Some(group)
  {
    if |group| == 3 {
      DecodeEncodeTriple(group[0], group[1], group[2], final);
      assert group == [group[0], group[1], group[2]];
    } else if |group| == 2 {
      DecodeEncodePair(group[0], group[1]);
      assert group == [group[0], group[1]];
    } else {
      DecodeEncodeSingle(group[0]);
      assert group == [group[0]];
    }
  }

  /** Decoding undoes encoding. */
  lemma {:induction false} DecodeEncode(bytes: seq<Byte>)
    ensures Decode(Encode(bytes)) == Some(bytes)
  {
    if bytes != [] {
      var n := if |bytes| < 3 then |bytes| else 3;
      var s := Encode(bytes);
      var q := EncodeQuantum(bytes[..n]);
      assert s == q + Encode(bytes[n..]);
      assert s[..4] == q && s[4..] == Encode(bytes[n..]);
      DecodeEncodeQuantum(bytes[..n], |s| == 4);
      DecodeEncode(bytes[n..]);
      assert bytes[..n] + bytes[n..] == bytes;
    }
  }

  /** Four symbols are the encoding of the three octets they decode to. */
  lemma EncodeDecodeTriple(q: string, i0: Sextet, i1: Sextet, i2: Sextet, i3: Sextet)
    requires |q| == 4
    requires SymbolValue(q[0]) == Some(i0) && SymbolValue(q[1]) == Some(i1)
    requires SymbolValue(q[2]) == Some(i2) && SymbolValue(q[3]) == Some(i3)
    ensures EncodeQuantum(Octets(i0, i1, i2, i3)) == q
  {
    SymbolBijection(i0, q[0]);
    SymbolBijection(i1, q[1]);
    SymbolBijection(i2, q[2]);
    SymbolBijection(i3, q[3]);
    GroupOfOctets(i0, i1, i2, i3);
    assert q == [q[0], q[1], q[2], q[3]];
  }

  /** Three symbols and one `=`, with the low bits of the third zero, encode the two octets they decode to. */
  lemma EncodeDecodePair(q: string, i0: Sextet, i1: Sextet, i2: Sextet)
    requires |q| == 4
    requires SymbolValue(q[0]) == Some(i0) && SymbolValue(q[1]) == Some(i1) && SymbolValue(q[2]) == Some(i2)
    requires q[3] == Pad && i2 % 4 == 0
    ensures EncodeQuantum(Octets(i0, i1, i2, 0)[..2]) == q
  {
    SymbolBijection(i0, q[0]);
    SymbolBijection(i1, q[1]);
    SymbolBijection(i2, q[2]);
    var x0, x1 := i0 * 4 + i1 / 16, (i1 % 16) * 16 + i2 / 4;
    assert Octets(i0, i1, i2, 0)[..2] == [x0, x1];
    assert x0 / 4 == i0 && x0 % 4 == i1 / 16;
    assert x1 / 16 == i1 % 16 && x1 % 16 == i2 / 4;
    assert (x0 % 4) * 16 + x1 / 16 == i1;
    assert (x1 % 16) * 4 + 0 / 64 == i2;
    assert EncodeQuantum([x0, x1]) == [Symbol(i0), Symbol(i1), Symbol(i2), Pad];
    assert q == [q[0], q[1], q[2], Pad];
  }

  /** Two symbols and two `=`, with the low bits of the second zero, encode the octet they decode to. */
  lemma EncodeDecodeSingle(q: string, i0: Sextet, i1: Sextet)
    requires |q| == 4
    requires SymbolValue(q[0]) == Some(i0) && SymbolValue(q[1]) == Some(i1)
    requires q[2] == Pad && q[3] == Pad && i1 % 16 == 0
    ensures EncodeQuantum(Octets(i0, i1, 0, 0)[..1]) == q
  {
    SymbolBijection(i0, q[0]);
    SymbolBijection(i1, q[1]);
    var x0 := i0 * 4 + i1 / 16;
    assert Octets(i0, i1, 0, 0)[..1] == [x0];
    assert x0 / 4 == i0 && x0 % 4 == i1 / 16;
    assert (x0 % 4) * 16 + 0 / 16 == i1;
    assert EncodeQuantum([x0]) == [Symbol(i0), Symbol(i1), Pad, Pad];
    assert q == [q[0], q[1], Pad, Pad];
  }

  /** A quantum the decoder accepts is the encoding of the one to three octets it yields. */
  lemma EncodeDecodeQuantum(q: string, final: bool, group: seq<Byte>)
    requires |q| == 4 && DecodeQuantum(q, final) == Some(group)
    ensures 1 <= |group| <= 3
    ensures |group| < 3 ==> final
    ensures EncodeQuantum(group) == q
  {
    var v0, v1, v2, v3 := SymbolValue(q[0]), SymbolValue(q[1]), SymbolValue(q[2]), SymbolValue(q[3]);
    if v3.Some? {
      EncodeDecodeTriple(q, v0.value, v1.value, v2.value, v3.value);
    } else if v2.Some? {
      EncodeDecodePair(q, v0.value, v1.value, v2.value);
    } else {
      EncodeDecodeSingle(q, v0.value, v1.value);
    }
  }

  /** Every string the decoder accepts is the encoding of what it decodes to. */
  lemma {:induction false} EncodeDecode(s: string, bytes: seq<Byte>)
    requires Decode(s) == Some(bytes)
    ensures Encode(bytes) == s
  {
    if s != [] {
      var q := s[..4];
      assert DecodeQuantum(q, |s| == 4).Some? && Decode(s[4..]).Some?;
      var group := DecodeQuantum(q, |s| == 4).value;
      var rest := Decode(s[4..]).value;
      assert bytes == group + rest;
      EncodeDecodeQuantum(q, |s| == 4, group);
      EncodeDecode(s[4..], rest);
      var n := |group|;
      assert bytes[..n] == group && bytes[n..] == rest;
      if n < 3 {
        assert s[4..] == [] && rest == [];
      }
      assert s == q + s[4..];
    }
  }
}
