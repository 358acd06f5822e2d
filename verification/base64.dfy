/** The base64 encoding of section 4 of RFC 4648 (alphabet `A`-`Z`, `a`-`z`,
    `0`-`9`, `+`, `/`, with `=` padding): what `btoa` and
    `FileReader.readAsDataURL` produce and what the context assembler
    decodes. */
module Base64 {
  import opened Wrappers
  import Utf8

  type byte = Utf8.byte

  /** The character for a 6-bit value (Table 1 of RFC 4648). */
  function CharOf(v: int): (c: char)
    requires 0 <= v < 64
  {
    if v < 26 then ('A' as int + v) as char
    else if v < 52 then ('a' as int + (v - 26)) as char
    else if v < 62 then ('0' as int + (v - 52)) as char
    else if v == 62 then '+'
    else '/'
  }

  /** The 6-bit value of an alphabet character; `None` for anything else,
      including the pad character `=`. */
  function ValueOf(c: char): (r: Option<int>)
    ensures r.Some? ==> 0 <= r.value < 64
  {
    if 'A' <= c <= 'Z' then Some(c as int - 'A' as int)
    else if 'a' <= c <= 'z' then Some(c as int - 'a' as int + 26)
    else if '0' <= c <= '9' then Some(c as int - '0' as int + 52)
    else if c == '+' then Some(62)
    else if c == '/' then Some(63)
    else None
  }

  /** The alphabet table read in both directions agrees. */
  lemma {:induction false} ValueOfCharOf(v: int)
    requires 0 <= v < 64
    ensures ValueOf(CharOf(v)) == Some(v)
  {
  }

  lemma {:induction false} CharOfValueOf(c: char)
    requires ValueOf(c).Some?
    ensures CharOf(ValueOf(c).value) == c
  {
  }

  /** One group of one to three bytes as four characters: the bytes' bits
      in 6-bit pieces, zero-filled, with `=` for each missing byte. */
  function EncodeGroup(g: seq<byte>): (r: string)
    requires 1 <= |g| <= 3
    ensures |r| == 4
  {
    if |g| == 1 then
      [CharOf(g[0] / 4), CharOf((g[0] % 4) * 16), '=', '=']
    else if |g| == 2 then
      [CharOf(g[0] / 4), CharOf((g[0] % 4) * 16 + g[1] / 16), CharOf((g[1] % 16) * 4), '=']
    else
      [CharOf(g[0] / 4), CharOf((g[0] % 4) * 16 + g[1] / 16),
       CharOf((g[1] % 16) * 4 + g[2] / 64), CharOf(g[2] % 64)]
  }

  /** Encoding: consecutive 3-byte groups, the last possibly shorter. */
  function Encode(bs: seq<byte>): (r: string)
    ensures |r| == (|bs| + 2) / 3 * 4
  {
    if |bs| == 0 then ""
    else if |bs| <= 3 then EncodeGroup(bs)
    else
      var rest := Encode(bs[3..]);
      assert (|bs| + 2) / 3 == (|bs[3..]| + 2) / 3 + 1;
      EncodeGroup(bs[..3]) + rest
  }

  /** Decodes one group of four characters. Padding is accepted only in the
      final group, and the bits it leaves over must be zero (section 3.5 of
      RFC 4648), so each byte string has exactly one accepted encoding. */
  function DecodeGroup(g: string, last: bool): (r: Option<seq<byte>>)
    requires |g| == 4
    ensures r.Some? ==> 1 <= |r.value| <= 3
    ensures r.Some? && !last ==> |r.value| == 3
  {
    var v0, v1, v2, v3 := ValueOf(g[0]), ValueOf(g[1]), ValueOf(g[2]), ValueOf(g[3]);
    if v0.None? || v1.None? then None
    else
      var a, b := v0.value, v1.value;
      if v2.Some? && v3.Some? then
        var c, d := v2.value, v3.value;
        Some([a * 4 + b / 16, (b % 16) * 16 + c / 4, (c % 4) * 64 + d])
      else if last && v2.Some? && g[3] == '=' && v2.value % 4 == 0 then
        var c := v2.value;
        Some([a * 4 + b / 16, (b % 16) * 16 + c / 4])
      else if last && g[2] == '=' && g[3] == '=' && b % 16 == 0 then
        Some([a * 4 + b / 16])
      else None
  }

  /** Three bytes cut into four 6-bit values and put back together. */
  lemma {:induction false} SplitJoin(x0: int, x1: int, x2: int)
    requires 0 <= x0 < 256 && 0 <= x1 < 256 && 0 <= x2 < 256
    ensures var a, b, c, d := x0 / 4, (x0 % 4) * 16 + x1 / 16, (x1 % 16) * 4 + x2 / 64, x2 % 64;
      && a * 4 + b / 16 == x0 && (b % 16) * 16 + c / 4 == x1 && (c % 4) * 64 + d == x2
  {
    var b, c := (x0 % 4) * 16 + x1 / 16, (x1 % 16) * 4 + x2 / 64;
    assert b / 16 == x0 % 4 && b % 16 == x1 / 16;
    assert c / 4 == x1 % 16 && c % 4 == x2 / 64;
  }

  /** Four 6-bit values joined into three bytes and cut apart again. */
  lemma {:induction false} JoinSplit(a: int, b: int, c: int, d: int)
    requires 0 <= a < 64 && 0 <= b < 64 && 0 <= c < 64 && 0 <= d < 64
    ensures var x0, x1, x2 := a * 4 + b / 16, (b % 16) * 16 + c / 4, (c % 4) * 64 + d;
      && x0 / 4 == a && (x0 % 4) * 16 + x1 / 16 == b && (x1 % 16) * 4 + x2 / 64 == c && x2 % 64 == d
  {
    var x0, x1, x2 := a * 4 + b / 16, (b % 16) * 16 + c / 4, (c % 4) * 64 + d;
    assert x0 / 4 == a && x0 % 4 == b / 16;
    assert x1 / 16 == b % 16 && x1 % 16 == c / 4;
    assert x2 / 64 == c % 4 && x2 % 64 == d;
  }

  lemma {:induction false} DecodeEncodeGroup1(x0: byte)
    ensures DecodeGroup(EncodeGroup([x0]), true) == Some([x0])
  {
    var e := EncodeGroup([x0]);
    ValueOfCharOf(x0 / 4);
    ValueOfCharOf((x0 % 4) * 16);
    SplitJoin(x0, 0, 0);
    assert e == [CharOf(x0 / 4), CharOf((x0 % 4) * 16), '=', '='];
  }

  lemma {:induction false} DecodeEncodeGroup2(x0: byte, x1: byte)
    ensures DecodeGroup(EncodeGroup([x0, x1]), true) == Some([x0, x1])
  {
    var e := EncodeGroup([x0, x1]);
    ValueOfCharOf(x0 / 4);
    ValueOfCharOf((x0 % 4) * 16 + x1 / 16);
    ValueOfCharOf((x1 % 16) * 4);
    SplitJoin(x0, x1, 0);
    assert e == [CharOf(x0 / 4), CharOf((x0 % 4) * 16 + x1 / 16), CharOf((x1 % 16) * 4), '='];
  }

  lemma {:induction false} DecodeEncodeGroup3(x0: byte, x1: byte, x2: byte, last: bool)
    ensures DecodeGroup(EncodeGroup([x0, x1, x2]), last) == Some([x0, x1, x2])
  {
    var e := EncodeGroup([x0, x1, x2]);
    ValueOfCharOf(x0 / 4);
    ValueOfCharOf((x0 % 4) * 16 + x1 / 16);
    ValueOfCharOf((x1 % 16) * 4 + x2 / 64);
    ValueOfCharOf(x2 % 64);
    SplitJoin(x0, x1, x2);
    assert e == [CharOf(x0 / 4), CharOf((x0 % 4) * 16 + x1 / 16),
                 CharOf((x1 % 16) * 4 + x2 / 64), CharOf(x2 % 64)];
  }

  /** A group decodes back to the bytes it encodes; a short group only as the
      final one. */
  lemma {:induction false} DecodeEncodeGroup(g: seq<byte>, last: bool)
    requires 1 <= |g| <= 3
    requires |g| < 3 ==> last
    ensures DecodeGroup(EncodeGroup(g), last) == Some(g)
  {
    if |g| == 1 {
      DecodeEncodeGroup1(g[0]);
      assert g == [g[0]];
    } else if |g| == 2 {
      DecodeEncodeGroup2(g[0], g[1]);
      assert g == [g[0], g[1]];
    } else {
      DecodeEncodeGroup3(g[0], g[1], g[2], last);
      assert g == [g[0], g[1], g[2]];
    }
  }

  /** A group the decoder accepts is the encoding of what it decodes to. */
  lemma {:induction false} EncodeDecodeGroup(g: string, last: bool)
    requires |g| == 4 && DecodeGroup(g, last).Some?
    ensures EncodeGroup(DecodeGroup(g, last).value) == g
  {
    var v2, v3 := ValueOf(g[2]), ValueOf(g[3]);
    if v2.Some? && v3.Some? {
      EncodeDecodeFull(g);
    } else if v2.Some? && g[3] == '=' && v2.value % 4 == 0 {
      EncodeDecodeTwo(g);
    } else {
      EncodeDecodeOne(g);
    }
  }

  lemma {:induction false} EncodeDecodeFull(g: string)
    requires |g| == 4
    requires ValueOf(g[0]).Some? && ValueOf(g[1]).Some? && ValueOf(g[2]).Some? && ValueOf(g[3]).Some?
    ensures var a, b, c, d := ValueOf(g[0]).value, ValueOf(g[1]).value, ValueOf(g[2]).value, ValueOf(g[3]).value;
      EncodeGroup([a * 4 + b / 16, (b % 16) * 16 + c / 4, (c % 4) * 64 + d]) == g
  {
    var a, b, c, d := ValueOf(g[0]).value, ValueOf(g[1]).value, ValueOf(g[2]).value, ValueOf(g[3]).value;
    var x0, x1, x2 := a * 4 + b / 16, (b % 16) * 16 + c / 4, (c % 4) * 64 + d;
    JoinSplit(a, b, c, d);
    assert EncodeGroup([x0, x1, x2]) == [CharOf(a), CharOf(b), CharOf(c), CharOf(d)];
    CharOfValueOf(g[0]);
    CharOfValueOf(g[1]);
    CharOfValueOf(g[2]);
    CharOfValueOf(g[3]);
  }

  lemma {:induction false} EncodeDecodeTwo(g: string)
    requires |g| == 4 && g[3] == '='
    requires ValueOf(g[0]).Some? && ValueOf(g[1]).Some? && ValueOf(g[2]).Some? && ValueOf(g[2]).value % 4 == 0
    ensures var a, b, c := ValueOf(g[0]).value, ValueOf(g[1]).value, ValueOf(g[2]).value;
      EncodeGroup([a * 4 + b / 16, (b % 16) * 16 + c / 4]) == g
  {
    var a, b, c := ValueOf(g[0]).value, ValueOf(g[1]).value, ValueOf(g[2]).value;
    var x0, x1 := a * 4 + b / 16, (b % 16) * 16 + c / 4;
    JoinSplit(a, b, c, 0);
    assert EncodeGroup([x0, x1]) == [CharOf(a), CharOf(b), CharOf(c), '='];
    CharOfValueOf(g[0]);
    CharOfValueOf(g[1]);
    CharOfValueOf(g[2]);
  }

  lemma {:induction false} EncodeDecodeOne(g: string)
    requires |g| == 4 && g[2] == '=' && g[3] == '='
    requires ValueOf(g[0]).Some? && ValueOf(g[1]).Some? && ValueOf(g[1]).value % 16 == 0
    ensures var a, b := ValueOf(g[0]).value, ValueOf(g[1]).value;
      EncodeGroup([a * 4 + b / 16]) == g
  {
    var a, b := ValueOf(g[0]).value, ValueOf(g[1]).value;
    var x0 := a * 4 + b / 16;
    JoinSplit(a, b, 0, 0);
    assert EncodeGroup([x0]) == [CharOf(a), CharOf(b), '=', '='];
    CharOfValueOf(g[0]);
    CharOfValueOf(g[1]);
  }

  /** Strict decoding: `None` for a length that is not a multiple of four,
      a character outside the alphabet, misplaced padding or non-zero pad
      bits. */
  function Decode(s: string): Option<seq<byte>>
    decreases |s|
  {
    if s == [] then Some([])
    else if |s| < 4 then None
    else match DecodeGroup(s[..4], |s| == 4)
      case None => None
      case Some(g) =>
        match Decode(s[4..])
        case None => None
        case Some(rest) => Some(g + rest)
  }

  /** Round trip: decoding an encoding gives the original bytes back. */
  lemma {:induction false} DecodeEncode(bs: seq<byte>)
    ensures Decode(Encode(bs)) == Some(bs)
    decreases |bs|
  {
    var s := Encode(bs);
    if 1 <= |bs| <= 3 {
      DecodeEncodeGroup(bs, true);
      assert s[..4] == s;
      assert s[4..] == [];
      assert bs + [] == bs;
    } else if |bs| > 3 {
      DecodeEncodeGroup(bs[..3], |s| == 4);
      DecodeEncode(bs[3..]);
      assert s[..4] == EncodeGroup(bs[..3]);
      assert s[4..] == Encode(bs[3..]);
      assert bs == bs[..3] + bs[3..];
    }
  }

  /** Converse round trip: every string the decoder accepts is the encoding
      of what it decodes to, so encoding and decoding are mutually inverse. */
  lemma {:induction false} EncodeDecode(s: string)
    requires Decode(s).Some?
    ensures Encode(Decode(s).value) == s
    decreases |s|
  {
    if s != [] {
      var g := DecodeGroup(s[..4], |s| == 4).value;
      var bs := Decode(s).value;
      EncodeDecodeGroup(s[..4], |s| == 4);
      if |s| == 4 {
        var rest := Decode(s[4..]).value;
        assert rest == [];
        assert bs == g;
        assert s[..4] == s;
      } else {
        var rest := Decode(s[4..]).value;
        EncodeDecode(s[4..]);
        assert rest != [];
        assert bs == g + rest && |g| == 3;
        assert bs[..3] == g && bs[3..] == rest;
        assert s == s[..4] + s[4..];
      }
    }
  }
}
