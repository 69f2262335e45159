/** UTF-8 as defined by RFC 3629: the byte encoding that Python's `str.encode()`
    uses by default. A Dafny `char` is a Unicode scalar value, so every string
    here can be encoded. */
module Utf8 {
  import opened Wrappers

  newtype byte = x: int | 0 <= x < 256

  type Bytes = seq<byte>

  /** A continuation byte 10xxxxxx. */
  predicate IsContinuation(b: byte) {
    0x80 <= b < 0xC0
  }

  /** The one to four bytes of a single code point. The six-bit groups are taken
      by repeated division, least significant group last. */
  function EncodeChar(c: char): (r: Bytes)
    ensures 1 <= |r| <= 4
    ensures |r| == 1 <==> c as int < 0x80
    ensures |r| == 1 ==> r[0] as int == c as int
    ensures forall k | 1 <= k < |r| :: IsContinuation(r[k])
  {
    var n := c as int;
    if n < 0x80 then
      [n as byte]
    else if n < 0x800 then
      [(0xC0 + n / 64) as byte, (0x80 + n % 64) as byte]
    else if n < 0x10000 then
      var hi := n / 64;
      [(0xE0 + hi / 64) as byte, (0x80 + hi % 64) as byte, (0x80 + n % 64) as byte]
    else
      var hi := n / 64;
      var top := hi / 64;
      [(0xF0 + top / 64) as byte, (0x80 + top % 64) as byte,
       (0x80 + hi % 64) as byte, (0x80 + n % 64) as byte]
  }

  /** The UTF-8 encoding of a string: the encodings of its characters, in order. */
  function Encode(s: string): (r: Bytes)
    ensures |s| <= |r| <= 4 * |s|
  {
    if s == [] then [] else EncodeChar(s[0]) + Encode(s[1..])
  }

  /** Reads one code point from the front of `bs`, rejecting truncated
      sequences, stray continuation bytes, overlong forms, surrogates and
      values beyond U+10FFFF. Returns the character and the bytes it used. */
  function DecodeFirst(bs: Bytes): (r: Option<(char, nat)>)
    requires bs != []
    ensures r.Some? ==> 1 <= r.value.1 <= |bs|
  {
    var b0 := bs[0] as int;
    if b0 < 0x80 then
      Some((b0 as char, 1))
    else if 0xC0 <= b0 < 0xE0 then
      if |bs| < 2 || !IsContinuation(bs[1]) then None
      else
        var n := (b0 - 0xC0) * 64 + (bs[1] as int - 0x80);
        if n < 0x80 then None else Some((n as char, 2))
    else if 0xE0 <= b0 < 0xF0 then
      if |bs| < 3 || !IsContinuation(bs[1]) || !IsContinuation(bs[2]) then None
      else
        var n := ((b0 - 0xE0) * 64 + (bs[1] as int - 0x80)) * 64 + (bs[2] as int - 0x80);
        if n < 0x800 || (0xD800 <= n < 0xE000) then None else Some((n as char, 3))
    else if 0xF0 <= b0 < 0xF8 then
      if |bs| < 4 || !IsContinuation(bs[1]) || !IsContinuation(bs[2]) || !IsContinuation(bs[3]) then None
      else
        var n := (((b0 - 0xF0) * 64 + (bs[1] as int - 0x80)) * 64 + (bs[2] as int - 0x80)) * 64
                 + (bs[3] as int - 0x80);
        if n < 0x10000 || 0x110000 <= n then None else Some((n as char, 4))
    else
      None
  }

  /** Strict UTF-8 decoding: `None` for any ill-formed byte sequence. */
  function Decode(bs: Bytes): Option<string>
    decreases |bs|
  {
    if bs == [] then Some([])
    else
      match DecodeFirst(bs)
      case None => None
      case Some((c, n)) =>
        match Decode(bs[n..])
        case None => None
        case Some(s) => Some([c] + s)
  }

  /** Decoding the encoding of a character, followed by anything, gives back the
      character and the length of its encoding. */
  lemma DecodeFirstEncodeChar(c: char, rest: Bytes)
    ensures DecodeFirst(EncodeChar(c) + rest) == Some((c, |EncodeChar(c)|))
  {
    var n := c as int;
    var bs := EncodeChar(c) + rest;
    if n < 0x80 {
    } else if n < 0x800 {
      assert bs[0] as int == 0xC0 + n / 64 && bs[1] as int == 0x80 + n % 64;
    } else if n < 0x10000 {
      var hi := n / 64;
      assert bs[0] as int == 0xE0 + hi / 64 && bs[1] as int == 0x80 + hi % 64;
      assert bs[2] as int == 0x80 + n % 64;
    } else {
      var hi := n / 64;
      var top := hi / 64;
      assert bs[0] as int == 0xF0 + top / 64 && bs[1] as int == 0x80 + top % 64;
      assert bs[2] as int == 0x80 + hi % 64 && bs[3] as int == 0x80 + n % 64;
    }
  }

  /** Round trip: strict decoding inverts encoding. */
  lemma {:induction false} DecodeEncode(s: string)
    ensures Decode(Encode(s)) == Some(s)
  {
    if s != [] {
      var e := EncodeChar(s[0]);
      assert Encode(s) == e + Encode(s[1..]);
      DecodeFirstEncodeChar(s[0], Encode(s[1..]));
      assert (e + Encode(s[1..]))[|e|..] == Encode(s[1..]);
      DecodeEncode(s[1..]);
      assert [s[0]] + s[1..] == s;
    }
  }

  /** Different strings have different encodings. */
  lemma EncodeInjective(s: string, t: string)
    requires Encode(s) == Encode(t)
    ensures s == t
  {
    DecodeEncode(s);
    DecodeEncode(t);
  }

  /** Encoding distributes over concatenation. */
  lemma {:induction false} EncodeAppend(s: string, t: string)
    ensures Encode(s + t) == Encode(s) + Encode(t)
  {
    if s != [] {
      assert (s + t)[0] == s[0] && (s + t)[1..] == s[1..] + t;
      EncodeAppend(s[1..], t);
    } else {
      assert s + t == t;
    }
  }

  /** Every character is below U+0080. */
  predicate IsAscii(s: string) {
    forall k | 0 <= k < |s| :: s[k] as int < 0x80
  }

  /** An ASCII string encodes to one byte per character, holding its code. */
  lemma {:induction false} EncodeAscii(s: string)
    requires IsAscii(s)
    ensures |Encode(s)| == |s|
    ensures forall k | 0 <= k < |s| :: Encode(s)[k] as int == s[k] as int
  {
    if s != [] {
      assert IsAscii(s[1..]) by {
        forall k | 0 <= k < |s| - 1 ensures s[1..][k] as int < 0x80 {
          assert s[1..][k] == s[k + 1];
        }
      }
      EncodeAscii(s[1..]);
    }
  }
}
