/** The text encoding of the shutdown channel: .NET's `UnicodeEncoding` with
    its defaults, that is UTF-16 (section 2.1 of RFC 2781 for encoding,
    section 2.2 for decoding) serialised little-endian, without a byte order
    mark. */
module Utf16 {
  import opened Wrappers

  type Byte = b: int | 0 <= b < 0x100
  type CodeUnit = u: int | 0 <= u < 0x1_0000

  predicate IsHighSurrogate(u: int) { 0xD800 <= u < 0xDC00 }
  predicate IsLowSurrogate(u: int) { 0xDC00 <= u < 0xE000 }

  /** Section 2.1 of RFC 2781: a character below U+10000 is one code unit;
      any other is a high surrogate carrying the upper ten bits of
      `c - 0x10000` followed by a low surrogate carrying the lower ten. */
  function CharUnits(c: char): (us: seq<CodeUnit>)
    ensures |us| == if (c as int) < 0x1_0000 then 1 else 2
    ensures |us| == 1 ==> !IsHighSurrogate(us[0]) && !IsLowSurrogate(us[0]) && us[0] == c as int
    ensures |us| == 2 ==> IsHighSurrogate(us[0]) && IsLowSurrogate(us[1])
  {
    var v := c as int;
    if v < 0x1_0000 then [v]
    else
      var u' := v - 0x1_0000;
      [0xD800 + u' / 0x400, 0xDC00 + u' % 0x400]
  }

  function ToUnits(s: string): seq<CodeUnit>
  {
    if s == [] then [] else CharUnits(s[0]) + ToUnits(s[1..])
  }

  /** Section 2.2 of RFC 2781. A low surrogate first, or a high surrogate not
      followed by a low one, is malformed: .NET substitutes U+FFFD there, the
      model reports no string. */
  function FromUnits(us: seq<CodeUnit>): Option<string>
  {
    if us == [] then Some("")
    else
      var w1 := us[0];
      if !IsHighSurrogate(w1) && !IsLowSurrogate(w1) then
        match FromUnits(us[1..])
        case None => None
        case Some(rest) => Some([w1 as char] + rest)
      else if IsHighSurrogate(w1) && |us| >= 2 && IsLowSurrogate(us[1]) then
        var v: int := 0x1_0000 + (w1 as int - 0xD800) * 0x400 + (us[1] as int - 0xDC00);
        match FromUnits(us[2..])
        case None => None
        case Some(rest) => Some([v as char] + rest)
      else None
  }

  /** Each code unit as two bytes, low byte first. */
  function ToBytes(us: seq<CodeUnit>): (bs: seq<Byte>)
    ensures |bs| == 2 * |us|
  {
    if us == [] then [] else [us[0] % 0x100, us[0] / 0x100] + ToBytes(us[1..])
  }

  /** Pairs of bytes, low byte first, as code units; an odd byte count is
      malformed (.NET substitutes U+FFFD for the last byte). */
  function FromBytes(bs: seq<Byte>): Option<seq<CodeUnit>>
  {
    if bs == [] then Some([])
    else if |bs| == 1 then None
    else
      match FromBytes(bs[2..])
      case None => None
      case Some(rest) => Some([bs[0] as int + 0x100 * bs[1] as int] + rest)
  }

  /** `UnicodeEncoding.GetBytes`. */
  function Encode(s: string): seq<Byte>
  {
    ToBytes(ToUnits(s))
  }

  /** `UnicodeEncoding.GetString` on well-formed input. */
  function Decode(bs: seq<Byte>): Option<string>
  {
    match FromBytes(bs)
    case None => None
    case Some(us) => FromUnits(us)
  }

  lemma {:induction false} UnitsRoundTrip(s: string)
    ensures FromUnits(ToUnits(s)) == Some(s)
  {
    if s != [] {
      UnitsRoundTrip(s[1..]);
      var us := ToUnits(s);
      var cu := CharUnits(s[0]);
      assert us == cu + ToUnits(s[1..]);
      assert us[|cu|..] == ToUnits(s[1..]);
      assert [s[0]] + s[1..] == s;
    }
  }

  lemma {:induction false} UnitsCanonical(us: seq<CodeUnit>, s: string)
    requires FromUnits(us) == Some(s)
    ensures ToUnits(s) == us
  {
    if us != [] {
      var w1 := us[0];
      if !IsHighSurrogate(w1) && !IsLowSurrogate(w1) {
        var rest := FromUnits(us[1..]).value;
        UnitsCanonical(us[1..], rest);
        assert s[1..] == rest;
      } else {
        var v: int := 0x1_0000 + (w1 as int - 0xD800) * 0x400 + (us[1] as int - 0xDC00);
        var rest := FromUnits(us[2..]).value;
        UnitsCanonical(us[2..], rest);
        assert s[0] == v as char && s[1..] == rest;
        assert us == [us[0], us[1]] + us[2..];
      }
    }
  }

  lemma {:induction false} BytesRoundTrip(us: seq<CodeUnit>)
    ensures FromBytes(ToBytes(us)) == Some(us)
  {
    if us != [] {
      BytesRoundTrip(us[1..]);
      assert ToBytes(us)[2..] == ToBytes(us[1..]);
      assert [us[0]] + us[1..] == us;
    }
  }

  lemma {:induction false} BytesCanonical(bs: seq<Byte>, us: seq<CodeUnit>)
    requires FromBytes(bs) == Some(us)
    ensures ToBytes(us) == bs
  {
    if bs != [] {
      var rest := FromBytes(bs[2..]).value;
      BytesCanonical(bs[2..], rest);
      assert us[1..] == rest;
      assert bs == [bs[0], bs[1]] + bs[2..];
    }
  }

  /** Decoding what was encoded gives back the text. */
  lemma DecodeEncode(s: string)
    ensures Decode(Encode(s)) == Some(s)
  {
    BytesRoundTrip(ToUnits(s));
    UnitsRoundTrip(s);
  }

  /** Encoding is the only way to produce bytes that decode: a byte sequence
      that decodes to `s` is exactly the encoding of `s`. */
  lemma EncodeDecode(bs: seq<Byte>, s: string)
    requires Decode(bs) == Some(s)
    ensures Encode(s) == bs
  {
    var us := FromBytes(bs).value;
    UnitsCanonical(us, s);
    BytesCanonical(bs, us);
  }

  /** Text made of characters below U+10000 takes two bytes per character. */
  lemma {:induction false} EncodeLength(s: string)
    requires forall i | 0 <= i < |s| :: (s[i] as int) < 0x1_0000
    ensures |Encode(s)| == 2 * |s|
  {
    if s != [] {
      EncodeLength(s[1..]);
    }
  }

  /** The shutdown request encodes to 16 bytes, two per letter, high bytes
      zero. */
  lemma ShutdownEncoding()
    ensures Encode("SHUTDOWN") == [0x53, 0, 0x48, 0, 0x55, 0, 0x54, 0, 0x44, 0, 0x4F, 0, 0x57, 0, 0x4E, 0]
  {
    var s := "SHUTDOWN";
    assert ToUnits(s) == [0x53, 0x48, 0x55, 0x54, 0x44, 0x4F, 0x57, 0x4E] by {
      assert s[1..] == "HUTDOWN" && s[2..] == "UTDOWN" && s[3..] == "TDOWN";
      assert s[4..] == "DOWN" && s[5..] == "OWN" && s[6..] == "WN" && s[7..] == "N";
      assert ToUnits("N") == [0x4E];
    }
  }
}
