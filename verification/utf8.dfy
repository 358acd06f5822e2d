/** UTF-8 as defined in section 3 of RFC 3629: the byte form `encodeURIComponent`
    produces before base64 encoding, and the form the decoder reads back. */
module Utf8 {
  import opened Wrappers

  type byte = x: int | 0 <= x < 256

  predicate IsContinuation(b: byte) {
    0x80 <= b < 0xC0
  }

  /** The one to four bytes that encode one Unicode scalar value. */
  function EncodeChar(c: char): (r: seq<byte>)
    ensures 1 <= |r| <= 4
  {
    var n := c as int;
    if n < 0x80 then [n]
    else if n < 0x800 then [0xC0 + n / 64, 0x80 + n % 64]
    else if n < 0x1_0000 then [0xE0 + n / 4096, 0x80 + (n / 64) % 64, 0x80 + n % 64]
    else [0xF0 + n / 262144, 0x80 + (n / 4096) % 64, 0x80 + (n / 64) % 64, 0x80 + n % 64]
  }

  function Encode(s: string): (r: seq<byte>)
    ensures |s| <= |r| <= 4 * |s|
  {
    if s == [] then [] else EncodeChar(s[0]) + Encode(s[1..])
  }

  /** Reads the first encoded character of `bs`, with its length in bytes.
      Overlong forms, surrogate code points, values above U+10FFFF and
      truncated sequences are rejected, following the syntax of section 4 of
      RFC 3629. */
  function DecodeFirst(bs: seq<byte>): (r: Option<(char, nat)>)
    requires |bs| > 0
    ensures r.Some? ==> 1 <= r.value.1 <= |bs| && r.value.1 <= 4
  {
    var b0 := bs[0] as int;
    if b0 < 0x80 then Some((b0 as char, 1))
    else if 0xC2 <= b0 < 0xE0 then
      if |bs| >= 2 && IsContinuation(bs[1]) then
        Some((((b0 - 0xC0) * 64 + (bs[1] as int - 0x80)) as char, 2))
      else None
    else if 0xE0 <= b0 < 0xF0 then
      if |bs| >= 3 && IsContinuation(bs[1]) && IsContinuation(bs[2]) then
        var n := Compose3(b0 - 0xE0, bs[1] as int - 0x80, bs[2] as int - 0x80);
        if 0x800 <= n < 0xD800 || 0xE000 <= n then Some((n as char, 3)) else None
      else None
    else if 0xF0 <= b0 < 0xF5 then
      if |bs| >= 4 && IsContinuation(bs[1]) && IsContinuation(bs[2]) && IsContinuation(bs[3]) then
        var n := Compose4(b0 - 0xF0, bs[1] as int - 0x80, bs[2] as int - 0x80, bs[3] as int - 0x80);
        if 0x1_0000 <= n < 0x11_0000 then Some((n as char, 4)) else None
      else None
    else None
  }

  /** The code point carried by a three-byte form's 4 + 6 + 6 payload bits. */
  function Compose3(x: int, y: int, z: int): (n: int)
    requires 0 <= x < 16 && 0 <= y < 64 && 0 <= z < 64
    ensures 0 <= n < 0x1_0000
  {
    x * 4096 + y * 64 + z
  }

  /** The code point carried by a four-byte form's 3 + 6 + 6 + 6 payload bits. */
  function Compose4(w: int, x: int, y: int, z: int): (n: int)
    requires 0 <= w < 5 && 0 <= x < 64 && 0 <= y < 64 && 0 <= z < 64
    ensures 0 <= n < 5 * 262144
  {
    w * 262144 + x * 4096 + y * 64 + z
  }

  /** Strict decoding: `None` unless every byte belongs to a well-formed
      character. */
  function Decode(bs: seq<byte>): Option<string>
    decreases |bs|
  {
    if bs == [] then Some([])
    else match DecodeFirst(bs)
      case None => None
      case Some((c, n)) =>
        match Decode(bs[n..])
        case None => None
        case Some(rest) => Some([c] + rest)
  }

  lemma {:induction false} Split3(n: int)
    requires 0 <= n < 0x1_0000
    ensures n == Compose3(n / 4096, (n / 64) % 64, n % 64)
  {
  }

  lemma {:induction false} Split4(n: int)
    requires 0 <= n < 0x11_0000
    ensures n == Compose4(n / 262144, (n / 4096) % 64, (n / 64) % 64, n % 64)
  {
    assert n / 4096 == (n / 262144) * 64 + (n / 4096) % 64;
  }

  lemma {:induction false} Unsplit3(x: int, y: int, z: int)
    requires 0 <= x < 16 && 0 <= y < 64 && 0 <= z < 64
    ensures var n := Compose3(x, y, z); n / 4096 == x && (n / 64) % 64 == y && n % 64 == z
  {
    var n := Compose3(x, y, z);
    assert n / 64 == x * 64 + y;
  }

  lemma {:induction false} Unsplit4(w: int, x: int, y: int, z: int)
    requires 0 <= w < 5 && 0 <= x < 64 && 0 <= y < 64 && 0 <= z < 64
    ensures var n := Compose4(w, x, y, z);
      n / 262144 == w && (n / 4096) % 64 == x && (n / 64) % 64 == y && n % 64 == z
  {
    var n := Compose4(w, x, y, z);
    assert n / 64 == w * 4096 + x * 64 + y;
    assert n / 4096 == w * 64 + x;
  }

  /** The decoder reads back the character the encoder wrote, whatever follows. */
  lemma {:induction false} DecodeEncodeChar(c: char, rest: seq<byte>)
    ensures DecodeFirst(EncodeChar(c) + rest) == Some((c, |EncodeChar(c)|))
  {
    var n := c as int;
    if n < 0x80 {
      assert (EncodeChar(c) + rest)[0] == n;
    } else if n < 0x800 {
      DecodeEncodeTwoBytes(c, rest);
    } else if n < 0x1_0000 {
      DecodeEncodeThreeBytes(c, rest);
    } else {
      DecodeEncodeFourBytes(c, rest);
    }
  }

  lemma {:induction false} DecodeEncodeTwoBytes(c: char, rest: seq<byte>)
    requires 0x80 <= c as int < 0x800
    ensures DecodeFirst(EncodeChar(c) + rest) == Some((c, 2))
  {
    var n := c as int;
    var bs := EncodeChar(c) + rest;
    assert bs[0] == 0xC0 + n / 64 && bs[1] == 0x80 + n % 64;
  }

  lemma {:induction false} DecodeEncodeThreeBytes(c: char, rest: seq<byte>)
    requires 0x800 <= c as int < 0x1_0000
    ensures DecodeFirst(EncodeChar(c) + rest) == Some((c, 3))
  {
    var n := c as int;
    var bs := EncodeChar(c) + rest;
    assert bs[0] == 0xE0 + n / 4096 && bs[1] == 0x80 + (n / 64) % 64 && bs[2] == 0x80 + n % 64;
    Split3(n);
  }

  lemma {:induction false} DecodeEncodeFourBytes(c: char, rest: seq<byte>)
    requires 0x1_0000 <= c as int
    ensures DecodeFirst(EncodeChar(c) + rest) == Some((c, 4))
  {
    var n := c as int;
    var bs := EncodeChar(c) + rest;
    assert bs[0] == 0xF0 + n / 262144 && bs[1] == 0x80 + (n / 4096) % 64;
    assert bs[2] == 0x80 + (n / 64) % 64 && bs[3] == 0x80 + n % 64;
    Split4(n);
  }

  /** Whatever the decoder accepts as one character is exactly that
      character's encoding: there is one byte form per character. */
  lemma {:induction false} EncodeDecodeChar(bs: seq<byte>)
    requires |bs| > 0 && DecodeFirst(bs).Some?
    ensures EncodeChar(DecodeFirst(bs).value.0) == bs[..DecodeFirst(bs).value.1]
  {
    var b0 := bs[0] as int;
    if b0 < 0x80 {
    } else if b0 < 0xE0 {
      EncodeDecodeTwoBytes(bs);
    } else if b0 < 0xF0 {
      EncodeDecodeThreeBytes(bs);
    } else {
      EncodeDecodeFourBytes(bs);
    }
  }

  lemma {:induction false} EncodeDecodeTwoBytes(bs: seq<byte>)
    requires |bs| >= 2 && 0xC2 <= bs[0] < 0xE0 && IsContinuation(bs[1])
    ensures DecodeFirst(bs).Some? && EncodeChar(DecodeFirst(bs).value.0) == bs[..2]
  {
    var x, y := bs[0] as int - 0xC0, bs[1] as int - 0x80;
    var n := x * 64 + y;
    assert DecodeFirst(bs) == Some((n as char, 2));
    assert n / 64 == x && n % 64 == y;
    assert EncodeChar(n as char) == [0xC0 + n / 64, 0x80 + n % 64];
  }

  lemma {:induction false} EncodeDecodeThreeBytes(bs: seq<byte>)
    requires |bs| >= 3 && 0xE0 <= bs[0] < 0xF0 && IsContinuation(bs[1]) && IsContinuation(bs[2])
    requires DecodeFirst(bs).Some?
    ensures EncodeChar(DecodeFirst(bs).value.0) == bs[..3]
  {
    var x, y, z := bs[0] as int - 0xE0, bs[1] as int - 0x80, bs[2] as int - 0x80;
    var n := Compose3(x, y, z);
    assert DecodeFirst(bs) == Some((n as char, 3));
    Unsplit3(x, y, z);
    assert EncodeChar(n as char) == [0xE0 + n / 4096, 0x80 + (n / 64) % 64, 0x80 + n % 64];
  }

  lemma {:induction false} EncodeDecodeFourBytes(bs: seq<byte>)
    requires |bs| >= 4 && 0xF0 <= bs[0] < 0xF5
    requires IsContinuation(bs[1]) && IsContinuation(bs[2]) && IsContinuation(bs[3])
    requires DecodeFirst(bs).Some?
    ensures EncodeChar(DecodeFirst(bs).value.0) == bs[..4]
  {
    var w, x, y, z := bs[0] as int - 0xF0, bs[1] as int - 0x80, bs[2] as int - 0x80, bs[3] as int - 0x80;
    var n := Compose4(w, x, y, z);
    assert DecodeFirst(bs) == Some((n as char, 4));
    Unsplit4(w, x, y, z);
    assert EncodeChar(n as char) == [0xF0 + n / 262144, 0x80 + (n / 4096) % 64, 0x80 + (n / 64) % 64, 0x80 + n % 64];
  }

  /** Round trip: decoding an encoding gives the original text back. */
  lemma {:induction false} DecodeEncode(s: string)
    ensures Decode(Encode(s)) == Some(s)
  {
    if s != [] {
      var e := EncodeChar(s[0]);
      var bs := Encode(s);
      assert bs == e + Encode(s[1..]);
      DecodeEncodeChar(s[0], Encode(s[1..]));
      assert bs[|e|..] == Encode(s[1..]);
      DecodeEncode(s[1..]);
      assert Decode(bs) == Some([s[0]] + s[1..]);
      assert [s[0]] + s[1..] == s;
    }
  }

  /** Converse round trip: text the decoder accepts re-encodes to the very
      same bytes. */
  lemma {:induction false} EncodeDecode(bs: seq<byte>)
    requires Decode(bs).Some?
    ensures Encode(Decode(bs).value) == bs
    decreases |bs|
  {
    if bs != [] {
      var n := DecodeStep(bs);
      var c := DecodeFirst(bs).value.0;
      var rest := Decode(bs[n..]).value;
      calc {
        Encode(Decode(bs).value);
        Encode([c] + rest);
        { EncodeCons(c, rest); }
        EncodeChar(c) + Encode(rest);
        { EncodeDecodeChar(bs); EncodeDecode(bs[n..]); }
        bs[..n] + bs[n..];
        bs;
      }
    }
  }

  /** One step of an accepted decoding: the first character, then the rest. */
  lemma {:induction false} DecodeStep(bs: seq<byte>) returns (n: nat)
    requires bs != [] && Decode(bs).Some?
    ensures DecodeFirst(bs).Some? && n == DecodeFirst(bs).value.1 && n <= |bs|
    ensures Decode(bs[n..]).Some?
    ensures Decode(bs).value == [DecodeFirst(bs).value.0] + Decode(bs[n..]).value
  {
    n := DecodeFirst(bs).value.1;
  }

  lemma {:induction false} EncodeCons(c: char, rest: string)
    ensures Encode([c] + rest) == EncodeChar(c) + Encode(rest)
  {
    assert ([c] + rest)[1..] == rest;
  }
}
