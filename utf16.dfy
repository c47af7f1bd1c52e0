/**
  UTF-16 as section 2.1 of RFC 2781 defines it: what `char::encode_utf16`
  writes for one character and `str::encode_utf16` for a text, and the
  decoding of section 2.2 of RFC 2781 as the encoder's inverse.
*/
module Utf16Encoding {
  import opened Wrappers

  type U16 = u: int | 0 <= u < 0x1_0000

  predicate IsHighSurrogate(u: int) { 0xD800 <= u < 0xDC00 }

  predicate IsLowSurrogate(u: int) { 0xDC00 <= u < 0xE000 }

  /** The code point a high and a low surrogate stand for together. */
  function PairValue(high: int, low: int): (v: int)
    ensures IsHighSurrogate(high) && IsLowSurrogate(low) ==> 0x1_0000 <= v <= 0x10_FFFF
  {
    0x1_0000 + (high - 0xD800) * 0x400 + (low - 0xDC00)
  }

  /**
    The code units of one character: the value itself up to 0xFFFF, above it
    a high then a low surrogate carrying the top and bottom ten bits of
    `c - 0x10000`.
  */
  function EncodeChar(c: char): (r: seq<U16>)
    ensures |r| == if c as int <= 0xFFFF then 1 else 2
    ensures |r| == 1 ==> r[0] == c as int && !IsHighSurrogate(r[0]) && !IsLowSurrogate(r[0])
    ensures |r| == 2 ==> IsHighSurrogate(r[0]) && IsLowSurrogate(r[1]) &&
                         PairValue(r[0], r[1]) == c as int
  {
    var n := c as int;
    if n <= 0xFFFF then [n]
    else
      // `v >> 10` and `v & 0x3FF` are below 0x400, so or-ing them into
      // 0xD800 and 0xDC00, whose low ten bits are zero, is adding them
      var v := n - 0x1_0000;
      [0xD800 + v / 0x400, 0xDC00 + v % 0x400]
  }

  /** `str::encode_utf16`: the units of each character in order. */
  function EncodeAll(cs: seq<char>): (r: seq<U16>)
    ensures |cs| <= |r| <= 2 * |cs|
    decreases |cs|
  {
    if cs == [] then [] else EncodeChar(cs[0]) + EncodeAll(cs[1..])
  }

  /** Encoding distributes over concatenation. */
  lemma {:induction false} EncodeAllAppend(a: seq<char>, b: seq<char>)
    ensures EncodeAll(a + b) == EncodeAll(a) + EncodeAll(b)
    decreases |a|
  {
    if a != [] {
      assert (a + b)[1..] == a[1..] + b;
      EncodeAllAppend(a[1..], b);
    } else {
      assert a + b == b;
    }
  }

  /** UTF-16 decoding: a unit outside the surrogates is a character, a high then a low surrogate is one, anything else is an error. */
  function DecodeUnits(us: seq<U16>): (r: Option<seq<char>>)
    ensures r.Some? ==> |r.value| <= |us|
    decreases |us|
  {
    if us == [] then Some([])
    else if !IsHighSurrogate(us[0]) && !IsLowSurrogate(us[0]) then
      match DecodeUnits(us[1..])
      case Some(rest) => Some([us[0] as char] + rest)
      case None => None
    else if IsHighSurrogate(us[0]) && |us| >= 2 && IsLowSurrogate(us[1]) then
      match DecodeUnits(us[2..])
      case Some(rest) => Some([PairValue(us[0], us[1]) as char] + rest)
      case None => None
    else None
  }

  /** Decoding the encoder's output gives the characters back. */
  lemma {:induction false} DecodeEncode(cs: seq<char>)
    ensures DecodeUnits(EncodeAll(cs)) == Some(cs)
    decreases |cs|
  {
    if cs != [] {
      var head := EncodeChar(cs[0]);
      var us := EncodeAll(cs);
      DecodeEncode(cs[1..]);
      assert us == head + EncodeAll(cs[1..]);
      assert us[|head|..] == EncodeAll(cs[1..]);
      assert [cs[0]] + cs[1..] == cs;
    }
  }

  /** The character above the Basic Multilingual Plane U+1F600 takes the pair D83D DE00. */
  lemma EncodeGrinningFace()
    ensures EncodeChar('\U{1F600}') == [0xD83D, 0xDE00]
  {
  }
}
