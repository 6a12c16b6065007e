/// Python's strict `bytes.decode('utf-8')` and `bytes.decode('utf-16')`,
/// the text decoding the resolver applies to pool entries and package
/// names, together with reference encoders that invert them.
module TextCodec {
  import opened PySeq

  predicate IsContinuation(b: byte)
  {
    0x80 <= b < 0xC0
  }

  /// The scalar value at the front of `bs` and the number of bytes it
  /// occupies, or None when the bytes are not a well-formed UTF-8
  /// sequence (overlong forms, surrogates and values past U+10FFFF are
  /// rejected, as the strict decoder does).
  function Utf8Scalar(bs: seq<byte>): (r: Option<(char, nat)>)
    requires bs != []
    ensures r.Some? ==> 1 <= r.value.1 <= 4 && r.value.1 <= |bs|
  {
    var b0: int := bs[0];
    if b0 < 0x80 then
      Some((b0 as char, 1))
    else if 0xC2 <= b0 < 0xE0 then
      if 2 <= |bs| && IsContinuation(bs[1]) then
        Some((((b0 - 0xC0) * 0x40 + (bs[1] as int - 0x80)) as char, 2))
      else None
    else if 0xE0 <= b0 < 0xF0 then
      var lo := if b0 == 0xE0 then 0xA0 else 0x80;
      var hi := if b0 == 0xED then 0xA0 else 0xC0;
      if 3 <= |bs| && lo <= bs[1] < hi && IsContinuation(bs[2]) then
        Some((((b0 - 0xE0) * 0x1000 + (bs[1] as int - 0x80) * 0x40 + (bs[2] as int - 0x80)) as char, 3))
      else None
    else if 0xF0 <= b0 < 0xF5 then
      var lo := if b0 == 0xF0 then 0x90 else 0x80;
      var hi := if b0 == 0xF4 then 0x90 else 0xC0;
      if 4 <= |bs| && lo <= bs[1] < hi && IsContinuation(bs[2]) && IsContinuation(bs[3]) then
        Some((((b0 - 0xF0) * 0x4_0000 + (bs[1] as int - 0x80) * 0x1000
               + (bs[2] as int - 0x80) * 0x40 + (bs[3] as int - 0x80)) as char, 4))
      else None
    else None
  }

  /// `bs.decode('utf-8')`: None when the decoder would raise.
  function Utf8Decode(bs: seq<byte>): Option<string>
    decreases |bs|
  {
    if bs == [] then Some([])
    else match Utf8Scalar(bs)
      case None => None
      case Some((c, n)) =>
        match Utf8Decode(bs[n..])
        case None => None
        case Some(rest) => Some([c] + rest)
  }

  /// The shortest UTF-8 form of one scalar value.
  function Utf8EncodeScalar(c: char): (bs: seq<byte>)
    ensures 1 <= |bs| <= 4
  {
    var v := c as int;
    if v < 0x80 then [v]
    else if v < 0x800 then [0xC0 + v / 0x40, 0x80 + v % 0x40]
    else if v < 0x1_0000 then [0xE0 + v / 0x1000, 0x80 + v / 0x40 % 0x40, 0x80 + v % 0x40]
    else [0xF0 + v / 0x4_0000, 0x80 + v / 0x1000 % 0x40, 0x80 + v / 0x40 % 0x40, 0x80 + v % 0x40]
  }

  function Utf8Encode(s: string): seq<byte>
  {
    if s == [] then [] else Utf8EncodeScalar(s[0]) + Utf8Encode(s[1..])
  }

  /// Decoding the front of an encoded scalar value gives the value and the
  /// length of its encoding, whatever follows it.
  lemma Utf8ScalarRoundTrip(c: char, rest: seq<byte>)
    ensures Utf8Scalar(Utf8EncodeScalar(c) + rest) == Some((c, |Utf8EncodeScalar(c)|))
  {
    var v := c as int;
    if v < 0x80 {
    } else if v < 0x800 {
      Utf8TwoByteRoundTrip(c, rest);
    } else if v < 0x1_0000 {
      Utf8ThreeByteRoundTrip(c, rest);
    } else {
      Utf8FourByteRoundTrip(c, rest);
    }
  }

  lemma Utf8TwoByteRoundTrip(c: char, rest: seq<byte>)
    requires 0x80 <= c as int < 0x800
    ensures Utf8Scalar(Utf8EncodeScalar(c) + rest) == Some((c, 2))
  {
    var v := c as int;
    assert v == v / 0x40 * 0x40 + v % 0x40;
  }

  lemma Utf8ThreeByteRoundTrip(c: char, rest: seq<byte>)
    requires 0x800 <= c as int < 0x1_0000
    ensures Utf8Scalar(Utf8EncodeScalar(c) + rest) == Some((c, 3))
  {
    var v := c as int;
    assert v == v / 0x40 * 0x40 + v % 0x40;
    assert v / 0x40 == v / 0x1000 * 0x40 + v / 0x40 % 0x40;
  }

  lemma Utf8FourByteRoundTrip(c: char, rest: seq<byte>)
    requires 0x1_0000 <= c as int
    ensures Utf8Scalar(Utf8EncodeScalar(c) + rest) == Some((c, 4))
  {
    var v := c as int;
    assert v == v / 0x40 * 0x40 + v % 0x40;
    assert v / 0x40 == v / 0x1000 * 0x40 + v / 0x40 % 0x40;
    assert v / 0x1000 == v / 0x4_0000 * 0x40 + v / 0x1000 % 0x40;
  }

  /// Decoding what the reference encoder produced gives the text back.
  lemma {:induction false} Utf8RoundTrip(s: string)
    ensures Utf8Decode(Utf8Encode(s)) == Some(s)
  {
    if s != [] {
      var head := Utf8EncodeScalar(s[0]);
      var bs := head + Utf8Encode(s[1..]);
      Utf8ScalarRoundTrip(s[0], Utf8Encode(s[1..]));
      assert bs[|head|..] == Utf8Encode(s[1..]);
      Utf8RoundTrip(s[1..]);
      assert [s[0]] + s[1..] == s;
    }
  }

  /// The 16-bit code unit in the first two bytes of `bs`.
  function CodeUnit(bs: seq<byte>, bigEndian: bool): (u: int)
    requires 2 <= |bs|
    ensures 0 <= u < 0x1_0000
  {
    if bigEndian then bs[0] as int * 0x100 + bs[1] else bs[1] as int * 0x100 + bs[0]
  }

  predicate IsHighSurrogate(u: int)
  {
    0xD800 <= u < 0xDC00
  }

  predicate IsLowSurrogate(u: int)
  {
    0xDC00 <= u < 0xE000
  }

  /// Code units in a fixed byte order: a surrogate pair joins into one
  /// scalar; a lone surrogate or an odd trailing byte makes the strict
  /// decoder raise.
  function Utf16Units(bs: seq<byte>, bigEndian: bool): Option<string>
    decreases |bs|
  {
    if bs == [] then Some([])
    else if |bs| < 2 then None
    else
      var u := CodeUnit(bs, bigEndian);
      if !IsHighSurrogate(u) && !IsLowSurrogate(u) then
        match Utf16Units(bs[2..], bigEndian)
        case None => None
        case Some(rest) => Some([u as char] + rest)
      else if IsHighSurrogate(u) && 4 <= |bs| && IsLowSurrogate(CodeUnit(bs[2..], bigEndian)) then
        var c := (0x1_0000 + (u - 0xD800) * 0x400 + (CodeUnit(bs[2..], bigEndian) - 0xDC00)) as char;
        match Utf16Units(bs[4..], bigEndian)
        case None => None
        case Some(rest) => Some([c] + rest)
      else None
  }

  /// `bs.decode('utf-16')`: a leading byte-order mark (FF FE or FE FF)
  /// picks the byte order and is dropped; without one the host order,
  /// little-endian, is used.
  function Utf16Decode(bs: seq<byte>): Option<string>
  {
    if 2 <= |bs| && bs[0] == 0xFF && bs[1] == 0xFE then Utf16Units(bs[2..], false)
    else if 2 <= |bs| && bs[0] == 0xFE && bs[1] == 0xFF then Utf16Units(bs[2..], true)
    else Utf16Units(bs, false)
  }

  /// The little-endian UTF-16 form of one scalar value: one code unit, or
  /// a surrogate pair above U+FFFF.
  function Utf16EncodeScalar(c: char): (bs: seq<byte>)
    ensures |bs| == 2 || |bs| == 4
  {
    var v := c as int;
    if v < 0x1_0000 then [v % 0x100, v / 0x100]
    else
      var hi, lo := 0xD800 + (v - 0x1_0000) / 0x400, 0xDC00 + (v - 0x1_0000) % 0x400;
      [hi % 0x100, hi / 0x100, lo % 0x100, lo / 0x100]
  }

  function Utf16Encode(s: string): (bs: seq<byte>)
  {
    if s == [] then [] else Utf16EncodeScalar(s[0]) + Utf16Encode(s[1..])
  }

  lemma Utf16ScalarRoundTrip(c: char, rest: seq<byte>)
    ensures var bs := Utf16EncodeScalar(c) + rest;
      Utf16Units(bs, false) ==
        match Utf16Units(rest, false)
        case None => None
        case Some(tail) => Some([c] + tail)
  {
    var bs := Utf16EncodeScalar(c) + rest;
    var v := c as int;
    if v < 0x1_0000 {
      assert CodeUnit(bs, false) == v;
      assert bs[2..] == rest;
    } else {
      var w := v - 0x1_0000;
      var hi, lo := 0xD800 + w / 0x400, 0xDC00 + w % 0x400;
      assert CodeUnit(bs, false) == hi;
      assert bs[2..][..2] == [lo % 0x100, lo / 0x100];
      assert CodeUnit(bs[2..], false) == lo;
      assert bs[4..] == rest;
    }
  }

  /// Little-endian decoding of what the reference encoder produced gives
  /// the text back.
  lemma {:induction false} Utf16UnitsRoundTrip(s: string)
    ensures Utf16Units(Utf16Encode(s), false) == Some(s)
  {
    if s != [] {
      var head, rest := Utf16EncodeScalar(s[0]), Utf16Encode(s[1..]);
      assert Utf16Encode(s) == head + rest;
      Utf16UnitsRoundTrip(s[1..]);
      Utf16ScalarRoundTrip(s[0], rest);
      assert Utf16Units(head + rest, false) == Some([s[0]] + s[1..]);
      assert [s[0]] + s[1..] == s;
    }
  }

  /// A byte-order mark as the first character would be taken for one.
  predicate StartsLikeByteOrderMark(s: string)
  {
    s != [] && (s[0] == '\U{FEFF}' || s[0] == '\U{FFFE}')
  }

  /// `decode('utf-16')` inverts the little-endian encoder on every text
  /// that does not begin with a character the decoder reads as a mark.
  lemma Utf16RoundTrip(s: string)
    requires !StartsLikeByteOrderMark(s)
    ensures Utf16Decode(Utf16Encode(s)) == Some(s)
  {
    Utf16UnitsRoundTrip(s);
    if s != [] {
      var v := s[0] as int;
      assert Utf16Encode(s)[..|Utf16EncodeScalar(s[0])|] == Utf16EncodeScalar(s[0]);
      if v < 0x1_0000 {
        assert Utf16Encode(s)[0] == v % 0x100 && Utf16Encode(s)[1] == v / 0x100;
      }
    }
  }
}
