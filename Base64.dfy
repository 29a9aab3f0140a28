/**
 * Base64 with the standard alphabet and `=` padding (section 4 of RFC 4648),
 * as produced by `buffer.toString("base64")`. Decoding is strict: any text that
 * is not a padded Base64 string gives None.
 */
module Base64 {
  import opened Wrappers
  import opened Utf8

  /** The Base64 alphabet: 0..25 'A'..'Z', 26..51 'a'..'z', 52..61 '0'..'9', 62 '+', 63 '/'. */
  function Letter(v: int): (c: char)
    requires 0 <= v < 64
    ensures c != '='
  {
    if v < 26 then ('A' as int + v) as char
    else if v < 52 then ('a' as int + (v - 26)) as char
    else if v < 62 then ('0' as int + (v - 52)) as char
    else if v == 62 then '+'
    else '/'
  }

  /** The value of an alphabet character, or None for any other character. */
  function LetterValue(c: char): (r: Option<int>)
    ensures r.Some? ==> 0 <= r.value < 64 && Letter(r.value) == c
  {
    if 'A' <= c <= 'Z' then Some(c as int - 'A' as int)
    else if 'a' <= c <= 'z' then Some(c as int - 'a' as int + 26)
    else if '0' <= c <= '9' then Some(c as int - '0' as int + 52)
    else if c == '+' then Some(62)
    else if c == '/' then Some(63)
    else None
  }

  lemma LetterValueOfLetter(v: int)
    requires 0 <= v < 64
    ensures LetterValue(Letter(v)) == Some(v)
  {
  }

  /** Three bytes become four letters of six bits each. */
  function EncodeGroup(b0: Byte, b1: Byte, b2: Byte): string {
    [Letter(b0 / 4), Letter((b0 % 4) * 16 + b1 / 16), Letter((b1 % 16) * 4 + b2 / 64), Letter(b2 % 64)]
  }

  function Encode(bs: seq<Byte>): (s: string)
    ensures |s| % 4 == 0
    ensures |s| == 0 <==> bs == []
    decreases |bs|
  {
    if |bs| >= 3 then EncodeGroup(bs[0], bs[1], bs[2]) + Encode(bs[3..])
    else if |bs| == 2 then
      [Letter(bs[0] / 4), Letter((bs[0] % 4) * 16 + bs[1] / 16), Letter((bs[1] % 16) * 4), '=']
    else if |bs| == 1 then
      [Letter(bs[0] / 4), Letter((bs[0] % 4) * 16), '=', '=']
    else []
  }

  /** Four letters without padding give three bytes. */
  function DecodeGroup(a: char, b: char, c: char, d: char): Option<seq<Byte>> {
    match (LetterValue(a), LetterValue(b), LetterValue(c), LetterValue(d))
    case (Some(va), Some(vb), Some(vc), Some(vd)) =>
      Some([va * 4 + vb / 16, (vb % 16) * 16 + vc / 4, (vc % 4) * 64 + vd])
    case _ => None
  }

  /** The last four characters, which may end in one or two `=`. */
  function DecodeFinal(a: char, b: char, c: char, d: char): Option<seq<Byte>> {
    if d != '=' then DecodeGroup(a, b, c, d)
    else match (LetterValue(a), LetterValue(b), LetterValue(c))
      case (Some(va), Some(vb), Some(vc)) => Some([va * 4 + vb / 16, (vb % 16) * 16 + vc / 4])
      case (Some(va), Some(vb), None) =>
        if c == '=' then Some([va * 4 + vb / 16]) else None
      case _ => None
  }

  function Decode(s: string): (r: Option<seq<Byte>>)
    ensures r.Some? ==> |s| % 4 == 0
    ensures r.Some? ==> |s| / 4 * 3 - 2 <= |r.value| <= |s| / 4 * 3
    decreases |s|
  {
    if s == [] then Some([])
    else if |s| < 4 then None
    else if |s| == 4 then DecodeFinal(s[0], s[1], s[2], s[3])
    else match DecodeGroup(s[0], s[1], s[2], s[3])
      case None => None
      case Some(g) =>
        match Decode(s[4..])
        case None => None
        case Some(rest) => Some(g + rest)
  }

  /** Splitting `hi * 16 + lo` back into its parts. */
  lemma Split16(hi: int, lo: int)
    requires 0 <= lo < 16
    ensures (hi * 16 + lo) / 16 == hi && (hi * 16 + lo) % 16 == lo
  {
  }

  /** Splitting `hi * 4 + lo` back into its parts. */
  lemma Split4(hi: int, lo: int)
    requires 0 <= lo < 4
    ensures (hi * 4 + lo) / 4 == hi && (hi * 4 + lo) % 4 == lo
  {
  }

  /** The six-bit values of a group give its three bytes back. */
  lemma JoinGroup(b0: Byte, b1: Byte, b2: Byte)
    ensures var v0, v1, v2, v3 := b0 / 4, (b0 % 4) * 16 + b1 / 16, (b1 % 16) * 4 + b2 / 64, b2 % 64;
      v0 * 4 + v1 / 16 == b0 && (v1 % 16) * 16 + v2 / 4 == b1 && (v2 % 4) * 64 + v3 == b2
  {
    Split16(b0 % 4, b1 / 16);
    Split4(b1 % 16, b2 / 64);
  }

  lemma DecodeEncodeGroup(b0: Byte, b1: Byte, b2: Byte)
    ensures var e := EncodeGroup(b0, b1, b2); DecodeGroup(e[0], e[1], e[2], e[3]) == Some([b0, b1, b2])
  {
    var v0, v1, v2, v3 := b0 / 4, (b0 % 4) * 16 + b1 / 16, (b1 % 16) * 4 + b2 / 64, b2 % 64;
    LetterValueOfLetter(v0);
    LetterValueOfLetter(v1);
    LetterValueOfLetter(v2);
    LetterValueOfLetter(v3);
    JoinGroup(b0, b1, b2);
  }

  /** Decoding undoes encoding. */
  lemma {:induction false} DecodeEncode(bs: seq<Byte>)
    ensures Decode(Encode(bs)) == Some(bs)
    decreases |bs|
  {
    if |bs| > 3 {
      DecodeEncode(bs[3..]);
      DecodeEncodeStep(bs);
    } else if |bs| == 3 {
      assert bs == [bs[0], bs[1], bs[2]];
      DecodeEncodeThree(bs[0], bs[1], bs[2]);
    } else if |bs| == 2 {
      assert bs == [bs[0], bs[1]];
      DecodeEncodeTwo(bs[0], bs[1]);
    } else if |bs| == 1 {
      assert bs == [bs[0]];
      DecodeEncodeOne(bs[0]);
    }
  }

  /** A group that decodes in front of a non-empty text that decodes. */
  lemma DecodeCons(g: string, rest: string, head: seq<Byte>, tail: seq<Byte>)
    requires |g| == 4 && DecodeGroup(g[0], g[1], g[2], g[3]) == Some(head)
    requires rest != [] && Decode(rest) == Some(tail)
    ensures Decode(g + rest) == Some(head + tail)
  {
    var s := g + rest;
    assert s[0] == g[0] && s[1] == g[1] && s[2] == g[2] && s[3] == g[3];
    assert s[4..] == rest;
  }

  /** A full group in front of a text that decodes. */
  lemma DecodeEncodeStep(bs: seq<Byte>)
    requires |bs| > 3 && Decode(Encode(bs[3..])) == Some(bs[3..])
    ensures Decode(Encode(bs)) == Some(bs)
  {
    var e := EncodeGroup(bs[0], bs[1], bs[2]);
    assert Encode(bs) == e + Encode(bs[3..]);
    DecodeEncodeGroup(bs[0], bs[1], bs[2]);
    DecodeCons(e, Encode(bs[3..]), [bs[0], bs[1], bs[2]], bs[3..]);
    FirstThree(bs);
  }

  lemma FirstThree<T>(s: seq<T>)
    requires |s| >= 3
    ensures [s[0], s[1], s[2]] + s[3..] == s
  {
  }

  lemma DecodeEncodeThree(b0: Byte, b1: Byte, b2: Byte)
    ensures Decode(Encode([b0, b1, b2])) == Some([b0, b1, b2])
  {
    var bs := [b0, b1, b2];
    assert bs[3..] == [];
    assert Encode(bs) == EncodeGroup(b0, b1, b2);
    DecodeEncodeGroup(b0, b1, b2);
  }

  lemma DecodeEncodeTwo(b0: Byte, b1: Byte)
    ensures Decode(Encode([b0, b1])) == Some([b0, b1])
  {
    var v0, v1, v2 := b0 / 4, (b0 % 4) * 16 + b1 / 16, (b1 % 16) * 4;
    assert v0 * 4 + v1 / 16 == b0 && (v1 % 16) * 16 + v2 / 4 == b1 by {
      Split16(b0 % 4, b1 / 16);
      Split4(b1 % 16, 0);
    }
    var e := [Letter(v0), Letter(v1), Letter(v2), '='];
    assert Encode([b0, b1]) == e;
    LetterValueOfLetter(v0);
    LetterValueOfLetter(v1);
    LetterValueOfLetter(v2);
    assert DecodeFinal(e[0], e[1], e[2], e[3]) == Some([v0 * 4 + v1 / 16, (v1 % 16) * 16 + v2 / 4]);
  }

  lemma DecodeEncodeOne(b0: Byte)
    ensures Decode(Encode([b0])) == Some([b0])
  {
    var v0, v1 := b0 / 4, (b0 % 4) * 16;
    assert v0 * 4 + v1 / 16 == b0 by {
      Split16(b0 % 4, 0);
    }
    var e := [Letter(v0), Letter(v1), '=', '='];
    assert Encode([b0]) == e;
    LetterValueOfLetter(v0);
    LetterValueOfLetter(v1);
    assert DecodeFinal(e[0], e[1], e[2], e[3]) == Some([v0 * 4 + v1 / 16]);
  }
}
