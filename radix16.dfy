/**
  Base-16 text and numbers, as far as the escape decoder relies on them:
  the digit rule that `u8::from_str_radix(s, 16)` and
  `u32::from_str_radix(s, 16)` apply to each byte, the rule by which
  `u32::from_str_radix(s, 16)` accepts a string, and a lower-case formatter
  (the one `char::escape_default` uses for `\u{..}`) that the round-trip
  lemmas of the decoder need.
*/
module Radix16 {
  import opened Wrappers

  type Byte = b: int | 0 <= b < 0x100

  /** The code of `+`, the one sign `from_str_radix` accepts for an unsigned type. */
  const Plus: int := 0x2B

  function Pow16(n: nat): (p: nat)
    ensures p >= 1
  {
    if n == 0 then 1 else 16 * Pow16(n - 1)
  }

  /**
    The radix-16 digit rule of `from_str_radix`: the value of one ASCII
    hexadecimal digit of either case; None for every other code.
  */
  function DigitValue(b: int): (r: Option<nat>)
    ensures r.Some? ==> r.value < 16
    ensures r.Some? ==> 0x30 <= b < 0x80 && b != Plus
    ensures r.Some? ==> b == HexChar(r.value) as int || (r.value >= 10 && b == HexChar(r.value) as int - 0x20)
  {
    if 0x30 <= b <= 0x39 then Some(b - 0x30)
    else if 0x61 <= b <= 0x66 then Some(b - 0x61 + 10)
    else if 0x41 <= b <= 0x46 then Some(b - 0x41 + 10)
    else None
  }

  /** The value of a run of digits, most significant first; None as soon as one is not a digit. */
  function DigitsValue(bs: seq<int>): (r: Option<nat>)
    ensures r.Some? ==> r.value < Pow16(|bs|)
    ensures r.Some? ==> forall k :: 0 <= k < |bs| ==> DigitValue(bs[k]).Some?
    decreases |bs|
  {
    if bs == [] then Some(0)
    else
      match (DigitsValue(bs[..|bs| - 1]), DigitValue(bs[|bs| - 1]))
      case (Some(high), Some(low)) => Some(16 * high + low)
      case _ => None
  }

  /**
    `u32::from_str_radix(s, 16)` on the bytes of `s`: at most one leading `+`,
    then one or more hex digits whose value fits in 32 bits.
  */
  function ParseU32(bs: seq<int>): (r: Option<nat>)
    ensures r.Some? ==> r.value < 0x1_0000_0000
    ensures r.Some? ==> |bs| >= 1
    ensures r.Some? ==> forall k :: 0 <= k < |bs| ==> DigitValue(bs[k]).Some? || (k == 0 && bs[0] == Plus && |bs| > 1)
  {
    var digits := if |bs| > 1 && bs[0] == Plus then bs[1..] else bs;
    if digits == [] then None
    else
      match DigitsValue(digits)
      case Some(v) => if v < 0x1_0000_0000 then Some(v) else None
      case None => None
  }

  /** The codes of a character sequence. */
  function Codes(cs: seq<char>): (r: seq<int>)
    ensures |r| == |cs| && forall k :: 0 <= k < |cs| ==> r[k] == cs[k] as int
  {
    seq(|cs|, k requires 0 <= k < |cs| => cs[k] as int)
  }

  function HexChar(d: nat): (c: char)
    requires d < 16
  {
    if d < 10 then (0x30 + d) as char else (0x61 + d - 10) as char
  }

  predicate IsLowerHexChar(c: char)
  {
    '0' <= c <= '9' || 'a' <= c <= 'f'
  }

  /** Lower-case hexadecimal without leading zeros, as `{:x}` formats `n`. */
  function HexString(n: nat): (r: seq<char>)
    ensures |r| >= 1
    ensures forall k :: 0 <= k < |r| ==> IsLowerHexChar(r[k])
    decreases n
  {
    if n < 16 then [HexChar(n)] else HexString(n / 16) + [HexChar(n % 16)]
  }

  /** Every byte that `from_str_radix` accepts is ASCII, so an earlier UTF-8 check of the same bytes never decides. */
  lemma {:induction false} ParseU32IsAscii(bs: seq<int>)
    requires ParseU32(bs).Some?
    ensures forall k :: 0 <= k < |bs| ==> 0 <= bs[k] < 0x80
  {
    var digits := if |bs| > 1 && bs[0] == Plus then bs[1..] else bs;
    assert DigitsValue(digits).Some?;
    forall k | 0 <= k < |bs|
      ensures 0 <= bs[k] < 0x80
    {
      if |bs| > 1 && bs[0] == Plus {
        if k > 0 {
          assert bs[k] == digits[k - 1];
        }
      } else {
        assert bs[k] == digits[k];
      }
    }
  }

  /** With at most six bytes to parse, the 32-bit overflow check of `from_str_radix` is never reached. */
  lemma {:induction false} ParseU32Short(bs: seq<int>)
    requires |bs| <= 6
    ensures ParseU32(bs).Some? ==> ParseU32(bs).value < 0x100_0000
    ensures var digits := if |bs| > 1 && bs[0] == Plus then bs[1..] else bs;
      digits != [] && DigitsValue(digits).Some? ==> ParseU32(bs) == DigitsValue(digits)
  {
    var digits := if |bs| > 1 && bs[0] == Plus then bs[1..] else bs;
    if DigitsValue(digits).Some? {
      PowMonotone(|digits|, 6);
    }
  }

  lemma {:induction false} PowMonotone(m: nat, n: nat)
    requires m <= n
    ensures Pow16(m) <= Pow16(n)
  {
    if m < n {
      PowMonotone(m, n - 1);
    }
  }

  /** Every digit the formatter writes, and its upper-case form for 10 to 15, is accepted with its value. */
  lemma HexDigitsAccepted(d: nat)
    requires d < 16
    ensures DigitValue(HexChar(d) as int) == Some(d)
    ensures d >= 10 ==> DigitValue(HexChar(d) as int - 0x20) == Some(d)
  {
  }

  /** Parsing what `HexString` formats gives the number back. */
  lemma {:induction false} HexStringParses(n: nat)
    ensures DigitsValue(Codes(HexString(n))) == Some(n)
    decreases n
  {
    var r := HexString(n);
    if n < 16 {
      assert Codes(r)[..0] == [];
    } else {
      HexStringParses(n / 16);
      var high := HexString(n / 16);
      assert r == high + [HexChar(n % 16)];
      assert Codes(r)[..|r| - 1] == Codes(high);
    }
  }

  /** A number below 16^k takes at most k digits. */
  lemma {:induction false} HexStringWidth(n: nat, k: nat)
    requires k >= 1 && n < Pow16(k)
    ensures |HexString(n)| <= k
    decreases n
  {
    if n >= 16 {
      HexStringWidth(n / 16, k - 1);
    }
  }
}
