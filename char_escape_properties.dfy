/**
  What the escape decoder promises: the result and the length of each kind
  of step, that `Escape` keeps the characters of the iterator's results in
  order and fails on the first malformed one, and that it undoes Rust's
  `char::escape_default`.
*/
module CharEscapeProperties {
  import opened Wrappers
  import opened Radix16
  import opened CharEscapes

  /** The index of the first `}` in `t` at or after `k`, or `|t|` when there is none. */
  function NextBrace(t: seq<char>, k: nat): (e: nat)
    requires k <= |t|
    ensures k <= e <= |t|
    ensures e < |t| ==> t[e] == '}'
    ensures forall m :: k <= m < e ==> t[m] != '}'
    decreases |t| - k
  {
    if k == |t| || t[k] == '}' then k else NextBrace(t, k + 1)
  }

  lemma NextBraceAt(t: seq<char>, k: nat, e: nat)
    requires k <= e < |t| && t[e] == '}' && forall m :: k <= m < e ==> t[m] != '}'
    ensures NextBrace(t, k) == e
  {
  }

  predicate IsChar(e: CharEscape)
  {
    e.Literal? || e.Escaped?
  }

  lemma AsU8sFront(t: seq<char>, k: nat, e: nat)
    requires k < e <= |t|
    ensures AsU8s(t[k..e]) == [AsU8(t[k])] + AsU8s(t[k + 1..e])
  {
    assert t[k..e] == [t[k]] + t[k + 1..e];
  }

  /**
    The loop of the `\u` closure in closed form: it stops just past the first
    `}` (or at the end of the text), and it has overflowed exactly when more
    than six characters came before that `}`.
  */
  lemma {:induction false} BraceScanCloses(t: seq<char>, k: nat, buffer: seq<Byte>, overflow: bool)
    requires k <= |t| && |buffer| <= BufferLen && (overflow ==> |buffer| == BufferLen)
    ensures var e, r := NextBrace(t, k), BraceScan(t, k, buffer, overflow);
      (e == |t| ==> r == Unterminated) &&
      (e < |t| ==> r.Closed? && r.next == e + 1 &&
                   (r.overflow <==> overflow || |buffer| + (e - k) > BufferLen) &&
                   (!r.overflow ==> r.buffer == buffer + AsU8s(t[k..e])))
    decreases |t| - k
  {
    var e := NextBrace(t, k);
    if k == |t| {
    } else if t[k] == '}' {
      assert e == k;
      assert buffer + AsU8s(t[k..e]) == buffer;
    } else {
      assert e == NextBrace(t, k + 1);
      if overflow || |buffer| >= BufferLen {
        BraceScanCloses(t, k + 1, buffer, true);
      } else {
        var stored := buffer + [AsU8(t[k])];
        BraceScanCloses(t, k + 1, stored, false);
        if e < |t| {
          AsU8sFront(t, k, e);
          assert stored + AsU8s(t[k + 1..e]) == buffer + AsU8s(t[k..e]);
        }
      }
    }
  }

  /** A character other than a backslash is a `Literal` of itself and one character long. */
  lemma LiteralStep(s: seq<char>)
    requires s != [] && s[0] != '\\'
    ensures Step(s) == Some(Decoded(Literal(s[0]), 1))
  {
  }

  /** The seven escapes of one letter give their characters and are two characters long. */
  lemma SimpleEscapeSteps(s: seq<char>)
    requires |s| >= 2 && s[0] == '\\'
    ensures s[1] == '0' ==> Step(s) == Some(Decoded(Escaped('\0'), 2))
    ensures s[1] == 'n' ==> Step(s) == Some(Decoded(Escaped('\n'), 2))
    ensures s[1] == 'r' ==> Step(s) == Some(Decoded(Escaped('\r'), 2))
    ensures s[1] == 't' ==> Step(s) == Some(Decoded(Escaped('\t'), 2))
    ensures s[1] == '\\' ==> Step(s) == Some(Decoded(Escaped('\\'), 2))
    ensures s[1] == '\'' ==> Step(s) == Some(Decoded(Escaped('\''), 2))
    ensures s[1] == '"' ==> Step(s) == Some(Decoded(Escaped('"'), 2))
  {
  }

  /**
    A backslash followed by any character outside the escape table is
    `Improper` of that character and two characters long; a backslash that
    ends the text is `DanglingBackslash`.
  */
  lemma OtherBackslashSteps(s: seq<char>)
    requires s != [] && s[0] == '\\'
    ensures |s| == 1 ==> Step(s) == Some(Decoded(DanglingBackslash, 1))
    ensures |s| >= 2 && s[1] !in "0nrt\\'\"xu" ==> Step(s) == Some(Decoded(Improper(s[1]), 2))
  {
  }

  /**
    `\x` reads up to two more characters; it gives a character exactly when
    both are hex digits whose byte is below 128, and `Improper('x')` otherwise.
  */
  lemma HexEscapeStep(s: seq<char>)
    requires |s| >= 2 && s[0] == '\\' && s[1] == 'x'
    ensures Step(s).Some? && Step(s).value.len == if |s| < 4 then |s| else 4
    ensures Step(s).value.esc.Escaped? || Step(s).value.esc == Improper('x')
    ensures Step(s).value.esc.Escaped? <==>
              |s| >= 4 && DigitValue(s[2] as int).Some? && DigitValue(s[3] as int).Some? &&
              16 * DigitValue(s[2] as int).value + DigitValue(s[3] as int).value < 128
    ensures Step(s).value.esc.Escaped? ==>
              Step(s).value.esc.ch as int == 16 * DigitValue(s[2] as int).value + DigitValue(s[3] as int).value
    ensures Step(s).value.esc.Escaped? ==> Step(s).value.esc.ch as int < 128
  {
    assert SimpleEscape('x') == None;
    if |s| >= 4 {
      assert s[2..][0] == s[2] && s[2..][1] == s[3];
    }
  }

  /**
    The `\u{..}` escapes the decoder accepts, `t` being the text after `\u`:
    a `{`, at most six characters before the first `}`, and the low bytes of
    those characters parse as hexadecimal with the value `c`.
  */
  ghost predicate UnicodeEscapeFor(t: seq<char>, c: char)
  {
    |t| >= 1 && t[0] == '{' &&
    var e := NextBrace(t, 1);
    e < |t| && e - 1 <= BufferLen && ParseU32(AsU8s(t[1..e])) == Some(c as int)
  }

  lemma UnicodeTailCases(t: seq<char>)
    requires t != [] && t[0] == '{'
    ensures var e := NextBrace(t, 1);
      UnicodeTail(t) ==
        if e == |t| then Decoded(Improper('u'), |t|)
        else if e - 1 > BufferLen then Decoded(Improper('u'), e + 1)
        else
          var u := ParseU32(AsU8s(t[1..e]));
          var c := if u.Some? then FromU32(u.value) else None;
          if c.Some? then Decoded(Escaped(c.value), e + 1) else Decoded(Improper('u'), e + 1)
  {
    BraceScanCloses(t, 1, [], false);
    var e := NextBrace(t, 1);
    assert [] + AsU8s(t[1..e]) == AsU8s(t[1..e]);
  }

  /**
    `\u` gives the character `c` exactly when `UnicodeEscapeFor` holds of the
    text after it; every other `\u` is `Improper('u')`.
  */
  lemma UnicodeEscapeStep(s: seq<char>, c: char)
    requires |s| >= 2 && s[0] == '\\' && s[1] == 'u'
    ensures Step(s).Some?
    ensures Step(s).value.esc.Escaped? || Step(s).value.esc == Improper('u')
    ensures Step(s).value.esc == Escaped(c) <==> UnicodeEscapeFor(s[2..], c)
  {
    assert SimpleEscape('u') == None;
    var t := s[2..];
    assert Step(s).value.esc == UnicodeTail(t).esc;
    if t != [] && t[0] == '{' {
      UnicodeTailCases(t);
      var e := NextBrace(t, 1);
      if e < |t| && e - 1 <= BufferLen {
        var u := ParseU32(AsU8s(t[1..e]));
        if u == Some(c as int) {
          assert FromU32(c as int) == Some(c);
        }
      }
    }
  }

  /**
    How far `\u` reads: only the character after `u` when that is not `{`;
    otherwise through the first `}` however many characters come before it,
    or to the end of the text when there is no `}`.
  */
  lemma UnicodeEscapeLength(s: seq<char>)
    requires |s| >= 2 && s[0] == '\\' && s[1] == 'u'
    ensures Step(s).Some?
    ensures var t := s[2..];
      Step(s).value.len ==
        if t == [] then 2
        else if t[0] != '{' then 3
        else if NextBrace(t, 1) == |t| then |s|
        else 2 + NextBrace(t, 1) + 1
  {
    assert SimpleEscape('u') == None;
    var t := s[2..];
    if t != [] && t[0] == '{' {
      UnicodeTailCases(t);
    }
  }

  /**
    `perform_the_escaping` keeps what the iterator yields: it succeeds exactly
    when every result is a `Literal` or an `Escaped`, and then returns their
    characters in order; otherwise it fails with the first other result.
  */
  lemma {:induction false} EscapeKeepsOrder(s: seq<char>)
    ensures var es := Decode(s);
      Escape(s).Success? <==> forall k :: 0 <= k < |es| ==> IsChar(es[k])
    ensures var es := Decode(s);
      Escape(s).Success? ==>
        |Escape(s).value| == |es| && forall k :: 0 <= k < |es| ==> Escape(s).value[k] == es[k].ch
    ensures var es := Decode(s);
      Escape(s).Failure? ==>
        exists j :: 0 <= j < |es| && es[j] == Escape(s).error && !IsChar(es[j]) &&
                    forall k :: 0 <= k < j ==> IsChar(es[k])
    decreases |s|
  {
    match Step(s)
    case None =>
    case Some(d) =>
      var es := Decode(s);
      var tail := s[d.len..];
      EscapeKeepsOrder(tail);
      assert es == [d.esc] + Decode(tail);
      if IsChar(d.esc) {
        if Escape(tail).Failure? {
          var j :| 0 <= j < |Decode(tail)| && Decode(tail)[j] == Escape(tail).error && !IsChar(Decode(tail)[j]) &&
                   forall k :: 0 <= k < j ==> IsChar(Decode(tail)[k]);
          assert es[j + 1] == Decode(tail)[j];
          assert forall k :: 0 <= k < j + 1 ==> IsChar(es[k]) by {
            forall k | 0 <= k < j + 1 ensures IsChar(es[k]) {
              if k > 0 { assert es[k] == Decode(tail)[k - 1]; }
            }
          }
        } else {
          assert Escape(s) == Success([d.esc.ch] + Escape(tail).value);
          assert forall k :: 0 < k < |es| ==> es[k] == Decode(tail)[k - 1];
        }
      } else {
        assert Escape(s) == Failure(d.esc);
        assert es[0] == d.esc && !IsChar(es[0]);
      }
  }

  /** Text before which there is no backslash passes through unchanged. */
  lemma {:induction false} PlainPrefix(p: seq<char>, t: seq<char>)
    requires '\\' !in p
    ensures Escape(p + t) == Prepend(p, Escape(t))
    decreases |p|
  {
    if p == [] {
      assert p + t == t;
      PrependAssociates([], [], Escape(t));
    } else {
      var s := p + t;
      assert s[0] == p[0] && s[0] != '\\';
      assert s[1..] == p[1..] + t;
      PlainPrefix(p[1..], t);
      PrependAssociates([p[0]], p[1..], Escape(t));
      assert [p[0]] + p[1..] == p;
    }
  }

  /** Without a backslash the decoder returns its input. */
  lemma BackslashFree(s: seq<char>)
    requires '\\' !in s
    ensures Escape(s) == Success(s)
  {
    PlainPrefix(s, []);
    assert s + [] == s;
  }

  /** Rust's `char::escape_default` for one character. */
  function EscapeDefaultChar(c: char): (r: seq<char>)
    ensures |r| >= 1
  {
    if c == '\t' then "\\t"
    else if c == '\r' then "\\r"
    else if c == '\n' then "\\n"
    else if c == '\'' then "\\'"
    else if c == '"' then "\\\""
    else if c == '\\' then "\\\\"
    else if ' ' <= c <= '~' then [c]
    else "\\u{" + HexString(c as int) + "}"
  }

  /** `str::escape_default`: each character escaped in turn. */
  function EscapeDefault(cs: seq<char>): (r: seq<char>)
  {
    if cs == [] then [] else EscapeDefaultChar(cs[0]) + EscapeDefault(cs[1..])
  }

  lemma {:induction false} HexStringBytes(n: nat)
    ensures AsU8s(HexString(n)) == Codes(HexString(n))
    ensures '}' !in HexString(n)
  {
    var h := HexString(n);
    forall k | 0 <= k < |h|
      ensures AsU8s(h)[k] == Codes(h)[k]
    {
      assert IsLowerHexChar(h[k]);
    }
  }

  /** The hex digits of a scalar value are at most six, contain no `}`, and parse back to it. */
  lemma HexFormParses(n: nat)
    requires n <= 0x10FFFF
    ensures |HexString(n)| <= BufferLen
    ensures '}' !in HexString(n)
    ensures ParseU32(AsU8s(HexString(n))) == Some(n)
  {
    assert Pow16(6) == 0x100_0000;
    HexStringWidth(n, 6);
    HexStringBytes(n);
    HexStringParses(n);
    assert IsLowerHexChar(HexString(n)[0]);
  }

  /** After `\u`, the braced hex digits of `c` close at the `}` after them and name `c`. */
  lemma {:induction false} BracedHexNames(c: char, t: seq<char>, rest: seq<char>)
    requires t == ['{'] + HexString(c as int) + ['}'] + rest
    ensures NextBrace(t, 1) == 1 + |HexString(c as int)|
    ensures UnicodeEscapeFor(t, c)
  {
    var h := HexString(c as int);
    HexFormParses(c as int);
    var e := 1 + |h|;
    assert t[0] == '{' && t[e] == '}';
    forall m | 1 <= m < e
      ensures t[m] != '}'
    {
      assert t[m] == h[m - 1];
    }
    NextBraceAt(t, 1, e);
    assert t[1..e] == h;
    assert ParseU32(AsU8s(t[1..e])) == Some(c as int);
  }

  /** The `\u{..}` form of `escape_default` decodes to the character it was made from. */
  lemma {:induction false} UnicodeFormDecodes(c: char, rest: seq<char>)
    ensures var form := "\\u{" + HexString(c as int) + "}";
      Step(form + rest) == Some(Decoded(Escaped(c), |form|))
  {
    var h := HexString(c as int);
    var form := "\\u{" + h + "}";
    var s := form + rest;
    var t := s[2..];
    assert t == ['{'] + h + ['}'] + rest;
    BracedHexNames(c, t, rest);
    assert |form| == |h| + 4;
    assert s[0] == '\\' && s[1] == 'u';
    UnicodeEscapeStep(s, c);
    UnicodeEscapeLength(s);
    var d := Step(s).value;
    assert d.esc == Escaped(c);
    assert d.len == |form|;
  }

  lemma EscapeDefaultCharDecodes(c: char, rest: seq<char>)
    ensures var form := EscapeDefaultChar(c);
      Step(form + rest).Some? && Step(form + rest).value.len == |form| &&
      IsChar(Step(form + rest).value.esc) && Step(form + rest).value.esc.ch == c
  {
    if c in "\t\r\n'\"\\" || ' ' <= c <= '~' {
    } else {
      UnicodeFormDecodes(c, rest);
    }
  }

  /** The decoder undoes `escape_default`: every text can be written as a literal it reads back. */
  lemma {:induction false} EscapeDefaultRoundTrip(cs: seq<char>)
    ensures Escape(EscapeDefault(cs)) == Success(cs)
    decreases |cs|
  {
    if cs != [] {
      var form := EscapeDefaultChar(cs[0]);
      var rest := EscapeDefault(cs[1..]);
      EscapeDefaultCharDecodes(cs[0], rest);
      assert (form + rest)[|form|..] == rest;
      EscapeDefaultRoundTrip(cs[1..]);
      assert [cs[0]] + cs[1..] == cs;
    }
  }

  /**
    `\u{..}` stores each character as the low byte of its code point, so a
    character that is not a hex digit can stand in for one: `\u{Ł}` (U+0141,
    low byte 0x41, `A`) decodes to U+000A.
  */
  lemma LowByteStandsInForDigit()
    ensures Step("\\u{\U{0141}}") == Some(Decoded(Escaped('\n'), 5))
  {
    var s := "\\u{\U{0141}}";
    var t := s[2..];
    assert t == "{\U{0141}}";
    assert NextBrace(t, 1) == 2;
    assert AsU8s(t[1..2]) == [0x41];
    assert DigitsValue([0x41][..0]) == Some(0);
    assert ParseU32([0x41]) == Some(10);
    UnicodeEscapeStep(s, '\n');
    UnicodeEscapeLength(s);
  }

  /**
    The braced text is parsed by `from_str_radix`, which takes one leading
    `+`: `\u{+41}` decodes to `A` and reads all seven characters.
  */
  lemma PlusSignAccepted()
    ensures Step("\\u{+41}") == Some(Decoded(Escaped('A'), 7))
  {
    var s := "\\u{+41}";
    var t := s[2..];
    assert t == "{+41}";
    NextBraceAt(t, 1, 4);
    assert AsU8s(t[1..4]) == [Plus, 0x34, 0x31];
    assert DigitsValue([0x34, 0x31]) == Some(0x41) by {
      assert [0x34, 0x31][..1] == [0x34];
      assert [0x34][..0] == [];
    }
    assert [Plus, 0x34, 0x31][1..] == [0x34, 0x31];
    assert ParseU32([Plus, 0x34, 0x31]) == Some(0x41);
    UnicodeEscapeStep(s, 'A');
    UnicodeEscapeLength(s);
  }

  /** A non-digit after `\x` is refused: `\xZZ` is `Improper('x')` and reads four characters. */
  lemma NonDigitHexRefused()
    ensures Step("\\xZZ") == Some(Decoded(Improper('x'), 4))
  {
    HexEscapeStep("\\xZZ");
    assert DigitValue('Z' as int).None?;
  }
}
