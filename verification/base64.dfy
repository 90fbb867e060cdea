/** Base64 encoding with the standard alphabet and `=` padding, as section 4
    of RFC 4648 defines it (Python's `base64.b64encode`). The decoder is not
    part of the system; it is the inverse the encoder is proved against. */
module Base64 {
  import opened Wrappers

  type byte = x: int | 0 <= x < 256

  /** `A`–`Z`, `a`–`z`, `0`–`9`, `+`, `/`: the 64 characters of the alphabet. */
  predicate IsAlphabetChar(c: char) {
    ('A' <= c <= 'Z') || ('a' <= c <= 'z') || ('0' <= c <= '9') || c == '+' || c == '/'
  }

  /** The character for a 6-bit value, per Table 1 of RFC 4648. */
  function CharOf(v: int): (c: char)
    requires 0 <= v < 64
    ensures IsAlphabetChar(c)
  {
    if v < 26 then ('A' as int + v) as char
    else if v < 52 then ('a' as int + (v - 26)) as char
    else if v < 62 then ('0' as int + (v - 52)) as char
    else if v == 62 then '+'
    else '/'
  }

  /** The 6-bit value of an alphabet character; `None` for any other character. */
  function ValueOf(c: char): (r: Option<int>)
    ensures r.Some? <==> IsAlphabetChar(c)
    ensures r.Some? ==> 0 <= r.value < 64
  {
    if 'A' <= c <= 'Z' then Some(c as int - 'A' as int)
    else if 'a' <= c <= 'z' then Some(c as int - 'a' as int + 26)
    else if '0' <= c <= '9' then Some(c as int - '0' as int + 52)
    else if c == '+' then Some(62)
    else if c == '/' then Some(63)
    else None
  }

  lemma ValueOfCharOf(v: int)
    requires 0 <= v < 64
    ensures ValueOf(CharOf(v)) == Some(v)
  {
  }

  /** Three bytes to four characters. */
  function EncodeGroup(b0: byte, b1: byte, b2: byte): string {
    [CharOf(b0 / 4), CharOf((b0 % 4) * 16 + b1 / 16), CharOf((b1 % 16) * 4 + b2 / 64), CharOf(b2 % 64)]
  }

  /** Every character is from the alphabet, except `=` padding in the last two positions. */
  predicate WellPadded(r: string) {
    forall i :: 0 <= i < |r| ==> IsAlphabetChar(r[i]) || (r[i] == '=' && i >= |r| - 2)
  }

  lemma WellPaddedAfterGroup(g: string, rest: string)
    requires |g| == 4 && forall i :: 0 <= i < 4 ==> IsAlphabetChar(g[i])
    requires WellPadded(rest)
    ensures WellPadded(g + rest)
  {
    forall i | 4 <= i < |g + rest|
      ensures IsAlphabetChar((g + rest)[i]) || ((g + rest)[i] == '=' && i >= |g + rest| - 2)
    {
      assert (g + rest)[i] == rest[i - 4];
    }
  }

  lemma GroupCount(n: int)
    requires n >= 3
    ensures 4 + 4 * ((n - 3 + 2) / 3) == 4 * ((n + 2) / 3)
  {
  }

  /** A final single byte: two characters and two `=`. The four unused low
      bits of the second character are zero (section 3.5 of RFC 4648). */
  function EncodeOne(b0: byte): (r: string)
    ensures |r| == 4 && WellPadded(r)
    ensures r[2] == '=' && r[3] == '='
    ensures ValueOf(r[1]).Some? && ValueOf(r[1]).value % 16 == 0
  {
    ValueOfCharOf((b0 % 4) * 16);
    [CharOf(b0 / 4), CharOf((b0 % 4) * 16), '=', '=']
  }

  /** A final pair of bytes: three characters and one `=`. The two unused low
      bits of the third character are zero (section 3.5 of RFC 4648). */
  function EncodeTwo(b0: byte, b1: byte): (r: string)
    ensures |r| == 4 && WellPadded(r)
    ensures r[3] == '=' && IsAlphabetChar(r[2])
    ensures ValueOf(r[2]).Some? && ValueOf(r[2]).value % 4 == 0
  {
    ValueOfCharOf((b1 % 16) * 4);
    [CharOf(b0 / 4), CharOf((b0 % 4) * 16 + b1 / 16), CharOf((b1 % 16) * 4), '=']
  }

  /** `base64.b64encode`: each group of three bytes becomes four characters;
      a final group of one or two bytes is zero-filled and padded with `=`. */
  function Encode(b: seq<byte>): (r: string)
    ensures |r| == 4 * ((|b| + 2) / 3)
    ensures WellPadded(r)
    decreases |b|
  {
    if |b| == 0 then ""
    else if |b| == 1 then EncodeOne(b[0])
    else if |b| == 2 then EncodeTwo(b[0], b[1])
    else
      var g := EncodeGroup(b[0], b[1], b[2]);
      var rest := Encode(b[3..]);
      WellPaddedAfterGroup(g, rest);
      GroupCount(|b|);
      g + rest
  }

  /** The encoding of a length that is not a multiple of three ends with the
      padded form of its last one or two bytes, so the zero-filled bits and the
      `=` of section 3.5 of RFC 4648 sit at the end of the whole text. */
  lemma EncodeLastGroup(b: seq<byte>)
    requires |b| % 3 != 0
    ensures |Encode(b)| >= 4
    ensures |b| % 3 == 1 ==> Encode(b)[|Encode(b)| - 4..] == EncodeOne(b[|b| - 1])
    ensures |b| % 3 == 2 ==> Encode(b)[|Encode(b)| - 4..] == EncodeTwo(b[|b| - 2], b[|b| - 1])
  {
    if |b| % 3 == 1 {
      EncodeEndsWithOne(b, |b| / 3);
    } else {
      EncodeEndsWithTwo(b, |b| / 3);
    }
  }

  lemma {:induction false} EncodeEndsWithOne(b: seq<byte>, n: nat)
    requires |b| == 3 * n + 1
    ensures |Encode(b)| >= 4 && Encode(b)[|Encode(b)| - 4..] == EncodeOne(b[|b| - 1])
    decreases n
  {
    if n > 0 {
      var t := b[3..];
      EncodeEndsWithOne(t, n - 1);
      EncodeUnfold(b);
      LastFourOfConcat(EncodeGroup(b[0], b[1], b[2]), Encode(t));
      LastBytesOfTail(b);
    }
  }

  lemma {:induction false} EncodeEndsWithTwo(b: seq<byte>, n: nat)
    requires |b| == 3 * n + 2
    ensures |Encode(b)| >= 4 && Encode(b)[|Encode(b)| - 4..] == EncodeTwo(b[|b| - 2], b[|b| - 1])
    decreases n
  {
    if n > 0 {
      var t := b[3..];
      EncodeEndsWithTwo(t, n - 1);
      EncodeUnfold(b);
      LastFourOfConcat(EncodeGroup(b[0], b[1], b[2]), Encode(t));
      LastBytesOfTail(b);
    }
  }

  lemma EncodeUnfold(b: seq<byte>)
    requires |b| > 2
    ensures Encode(b) == EncodeGroup(b[0], b[1], b[2]) + Encode(b[3..])
  {
  }

  lemma LastBytesOfTail(b: seq<byte>)
    requires |b| > 3
    ensures b[|b| - 1] == b[3..][|b| - 4]
    ensures |b| > 4 ==> b[|b| - 2] == b[3..][|b| - 5]
  {
  }

  lemma LastFourOfConcat(g: string, rest: string)
    requires |rest| >= 4
    ensures |g + rest| >= 4 && (g + rest)[|g + rest| - 4..] == rest[|rest| - 4..]
  {
    assert (g + rest)[|g + rest| - 4..] == (g + rest)[|g|..][|rest| - 4..];
    assert (g + rest)[|g|..] == rest;
  }

  /** Four characters of the alphabet to three bytes. */
  function DecodeGroup(g: string): (r: Option<seq<byte>>)
    requires |g| == 4
  {
    match (ValueOf(g[0]), ValueOf(g[1]), ValueOf(g[2]), ValueOf(g[3]))
    case (Some(v0), Some(v1), Some(v2), Some(v3)) =>
      Some([v0 * 4 + v1 / 16, (v1 % 16) * 16 + v2 / 4, (v2 % 4) * 64 + v3])
    case _ => None
  }

  /** The last four characters, which may end in one or two `=`. */
  function DecodeLast(g: string): (r: Option<seq<byte>>)
    requires |g| == 4
  {
    if g[2] == '=' && g[3] == '=' then
      match (ValueOf(g[0]), ValueOf(g[1]))
      case (Some(v0), Some(v1)) => Some([v0 * 4 + v1 / 16])
      case _ => None
    else if g[3] == '=' then
      match (ValueOf(g[0]), ValueOf(g[1]), ValueOf(g[2]))
      case (Some(v0), Some(v1), Some(v2)) => Some([v0 * 4 + v1 / 16, (v1 % 16) * 16 + v2 / 4])
      case _ => None
    else DecodeGroup(g)
  }

  /** Decoding: `None` for a length that is not a multiple of four, a
      character outside the alphabet, or padding before the last group. */
  function Decode(s: string): Option<seq<byte>>
    decreases |s|
  {
    if |s| == 0 then Some([])
    else if |s| < 4 then None
    else if |s| == 4 then DecodeLast(s)
    else
      match (DecodeGroup(s[..4]), Decode(s[4..]))
      case (Some(head), Some(tail)) => Some(head + tail)
      case _ => None
  }

  /** The sextets of three bytes recombine into those bytes. */
  lemma SextetsRecombine(b0: byte, b1: byte, b2: byte)
    ensures var v1, v2 := (b0 % 4) * 16 + b1 / 16, (b1 % 16) * 4 + b2 / 64;
            && (b0 / 4) * 4 + v1 / 16 == b0
            && (v1 % 16) * 16 + v2 / 4 == b1
            && (v2 % 4) * 64 + b2 % 64 == b2
  {
    var v1, v2 := (b0 % 4) * 16 + b1 / 16, (b1 % 16) * 4 + b2 / 64;
    assert v1 / 16 == b0 % 4 && v1 % 16 == b1 / 16;
    assert v2 / 4 == b1 % 16 && v2 % 4 == b2 / 64;
  }

  lemma GroupRoundTrip(b0: byte, b1: byte, b2: byte)
    ensures DecodeGroup(EncodeGroup(b0, b1, b2)) == Some([b0, b1, b2])
  {
    ValueOfCharOf(b0 / 4);
    ValueOfCharOf((b0 % 4) * 16 + b1 / 16);
    ValueOfCharOf((b1 % 16) * 4 + b2 / 64);
    ValueOfCharOf(b2 % 64);
    SextetsRecombine(b0, b1, b2);
  }

  lemma SplitOne(b0: byte)
    ensures (b0 / 4) * 4 + ((b0 % 4) * 16) / 16 == b0
  {
  }

  lemma SplitTwo(b0: byte, b1: byte)
    ensures var v1 := (b0 % 4) * 16 + b1 / 16;
            (b0 / 4) * 4 + v1 / 16 == b0 && (v1 % 16) * 16 + ((b1 % 16) * 4) / 4 == b1
  {
  }

  lemma DecodeTwoPadded(v0: int, v1: int)
    requires 0 <= v0 < 64 && 0 <= v1 < 64
    ensures Decode([CharOf(v0), CharOf(v1), '=', '=']) == Some([v0 * 4 + v1 / 16])
  {
    var e := [CharOf(v0), CharOf(v1), '=', '='];
    assert Decode(e) == DecodeLast(e);
    ValueOfCharOf(v0);
    ValueOfCharOf(v1);
  }

  lemma DecodeOnePadded(v0: int, v1: int, v2: int)
    requires 0 <= v0 < 64 && 0 <= v1 < 64 && 0 <= v2 < 64
    ensures Decode([CharOf(v0), CharOf(v1), CharOf(v2), '='])
         == Some([v0 * 4 + v1 / 16, (v1 % 16) * 16 + v2 / 4])
  {
    var e := [CharOf(v0), CharOf(v1), CharOf(v2), '='];
    assert Decode(e) == DecodeLast(e);
    assert e[2] != '=';
    ValueOfCharOf(v0);
    ValueOfCharOf(v1);
    ValueOfCharOf(v2);
  }

  lemma OneByteRoundTrip(b0: byte)
    ensures Decode(EncodeOne(b0)) == Some([b0])
  {
    DecodeTwoPadded(b0 / 4, (b0 % 4) * 16);
    SplitOne(b0);
  }

  lemma TwoByteRoundTrip(b0: byte, b1: byte)
    ensures Decode(EncodeTwo(b0, b1)) == Some([b0, b1])
  {
    DecodeOnePadded(b0 / 4, (b0 % 4) * 16 + b1 / 16, (b1 % 16) * 4);
    SplitTwo(b0, b1);
  }

  lemma DecodeFullLast(b0: byte, b1: byte, b2: byte)
    ensures Decode(EncodeGroup(b0, b1, b2)) == Some([b0, b1, b2])
  {
    var g := EncodeGroup(b0, b1, b2);
    assert Decode(g) == DecodeLast(g);
    assert g[2] != '=' && g[3] != '=';
    GroupRoundTrip(b0, b1, b2);
  }

  lemma DecodeGroupThenRest(b0: byte, b1: byte, b2: byte, rest: string, tail: seq<byte>)
    requires |rest| >= 4
    requires Decode(rest) == Some(tail)
    ensures Decode(EncodeGroup(b0, b1, b2) + rest) == Some([b0, b1, b2] + tail)
  {
    var g := EncodeGroup(b0, b1, b2);
    var s := g + rest;
    assert s[..4] == g && s[4..] == rest;
    GroupRoundTrip(b0, b1, b2);
  }

  /** Decoding an encoding gives the bytes back. */
  lemma {:induction false} DecodeEncode(b: seq<byte>)
    ensures Decode(Encode(b)) == Some(b)
    decreases |b|
  {
    if |b| == 1 {
      OneByteRoundTrip(b[0]);
      assert [b[0]] == b;
    } else if |b| == 2 {
      TwoByteRoundTrip(b[0], b[1]);
      assert [b[0], b[1]] == b;
    } else if |b| >= 3 {
      assert b == [b[0], b[1], b[2]] + b[3..];
      if |b| == 3 {
        assert Encode(b) == EncodeGroup(b[0], b[1], b[2]);
        DecodeFullLast(b[0], b[1], b[2]);
        assert [b[0], b[1], b[2]] == b;
      } else {
        DecodeEncode(b[3..]);
        DecodeGroupThenRest(b[0], b[1], b[2], Encode(b[3..]), b[3..]);
      }
    }
  }
}
