/** UTF-8 as Python encodes and strictly decodes it (RFC 3629, section 3). */
module Utf8 {
  import opened Wrappers
  import opened JsonValues

  type Byte = b: int | 0 <= b < 0x100
  type Bytes = seq<Byte>

  /** The bytes of one code point. */
  function EncodePoint(c: CodePoint): (bs: Bytes)
    ensures 1 <= |bs| <= 4
  {
    if c < 0x80 then [c]
    else if c < 0x800 then [0xC0 + c / 0x40, 0x80 + c % 0x40]
    else if c < 0x1_0000 then [0xE0 + c / 0x1000, 0x80 + c / 0x40 % 0x40, 0x80 + c % 0x40]
    else [0xF0 + c / 0x4_0000, 0x80 + c / 0x1000 % 0x40, 0x80 + c / 0x40 % 0x40, 0x80 + c % 0x40]
  }

  function Encode(s: Text): (bs: Bytes)
    ensures |bs| >= |s|
  {
    if s == [] then [] else EncodePoint(s[0]) + Encode(s[1..])
  }

  predicate IsTrail(b: Byte) {
    0x80 <= b < 0xC0
  }

  /** The six bits of a trailing byte. */
  function Low(b: Byte): int {
    b as int - 0x80
  }

  /** The code point at the front and the number of its bytes; None where a strict decoder fails. */
  function DecodePoint(bs: Bytes): (r: Option<(CodePoint, nat)>)
    ensures r.Some? ==> 1 <= r.value.1 <= |bs|
  {
    if bs == [] then None
    else if bs[0] < 0x80 then Some((bs[0], 1))
    else if 0xC0 <= bs[0] < 0xE0 then
      if |bs| < 2 || !IsTrail(bs[1]) then None
      else
        var c := (bs[0] as int - 0xC0) * 0x40 + Low(bs[1]);
        if c < 0x80 then None else Some((c, 2))
    else if 0xE0 <= bs[0] < 0xF0 then
      if |bs| < 3 || !IsTrail(bs[1]) || !IsTrail(bs[2]) then None
      else
        var c := (bs[0] as int - 0xE0) * 0x1000 + Low(bs[1]) * 0x40 + Low(bs[2]);
        if c < 0x800 || 0xD800 <= c <= 0xDFFF then None else Some((c, 3))
    else if 0xF0 <= bs[0] < 0xF8 then
      if |bs| < 4 || !IsTrail(bs[1]) || !IsTrail(bs[2]) || !IsTrail(bs[3]) then None
      else
        var c := (bs[0] as int - 0xF0) * 0x4_0000 + Low(bs[1]) * 0x1000 + Low(bs[2]) * 0x40 + Low(bs[3]);
        if c < 0x1_0000 || c >= 0x11_0000 then None else Some((c, 4))
    else None
  }

  function Decode(bs: Bytes): Option<Text>
    decreases |bs|
  {
    if bs == [] then Some([])
    else match DecodePoint(bs)
      case None => None
      case Some((c, n)) =>
        match Decode(bs[n..])
        case None => None
        case Some(s) => Some([c] + s)
  }

  /** A number is put together again from its groups of six bits. */
  lemma Sextets(c: nat)
    ensures c == c / 0x40 * 0x40 + c % 0x40
    ensures c == c / 0x1000 * 0x1000 + c / 0x40 % 0x40 * 0x40 + c % 0x40
    ensures c == c / 0x4_0000 * 0x4_0000 + c / 0x1000 % 0x40 * 0x1000 + c / 0x40 % 0x40 * 0x40 + c % 0x40
  {
    assert c / 0x40 / 0x40 == c / 0x1000;
    assert c / 0x1000 / 0x40 == c / 0x4_0000;
  }

  lemma DecodeEncodePoint(c: CodePoint, rest: Bytes)
    requires !(0xD800 <= c <= 0xDFFF)
    ensures DecodePoint(EncodePoint(c) + rest) == Some((c, |EncodePoint(c)|))
  {
    var bs := EncodePoint(c) + rest;
    Sextets(c);
    assert forall i :: 0 <= i < |EncodePoint(c)| ==> bs[i] == EncodePoint(c)[i];
    var a, b, d := c / 0x1000, c / 0x40 % 0x40, c % 0x40;
    if 0x80 <= c < 0x800 {
      assert bs[0] == 0xC0 + c / 0x40 && bs[1] == 0x80 + d;
    } else if 0x800 <= c < 0x1_0000 {
      assert bs[0] == 0xE0 + a && bs[1] == 0x80 + b && bs[2] == 0x80 + d;
    } else if 0x1_0000 <= c {
      assert bs[0] == 0xF0 + c / 0x4_0000 && bs[1] == 0x80 + a % 0x40 && bs[2] == 0x80 + b && bs[3] == 0x80 + d;
    }
  }

  /** Decoding undoes encoding on text without surrogates. */
  lemma {:induction false} DecodeEncode(s: Text)
    requires NoSurrogate(s)
    ensures Decode(Encode(s)) == Some(s)
  {
    hide EncodePoint, DecodePoint;
    if s != [] {
      DecodeEncodePoint(s[0], Encode(s[1..]));
      DecodeEncode(s[1..]);
      var first, rest := EncodePoint(s[0]), Encode(s[1..]);
      assert (first + rest)[|first|..] == rest;
      assert [s[0]] + s[1..] == s;
    }
  }

  lemma {:induction false} EncodeAppend(s: Text, t: Text)
    ensures Encode(s + t) == Encode(s) + Encode(t)
  {
    hide EncodePoint;
    if s == [] {
      assert s + t == t;
    } else {
      EncodeAppend(s[1..], t);
      assert (s + t)[1..] == s[1..] + t && (s + t)[0] == s[0];
      var a, b, c := EncodePoint(s[0]), Encode(s[1..]), Encode(t);
      assert a + (b + c) == (a + b) + c;
    }
  }
}
