/**
  The work the `utf16` and `utf16_null` macros do on the text of a string
  literal token: strip the quotes, resolve the escapes, encode the
  characters as UTF-16 and, for `utf16_null`, add a terminating zero. The
  two macros differ only in that last push, so the model is one operation
  with a `nullTerminate` flag.
*/
module Utf16Lit {
  import opened Wrappers
  import opened CharEscapes
  import opened Utf16Encoding
  import CharEscapeProperties
  import Radix16

  /** Why a literal is refused: it is not quoted, or one of its escapes is malformed. */
  datatype LitError = Usage | EscapeError(esc: CharEscape)

  /**
    The text between the quotes: the last character is popped and must be
    `"`, and what remains must start with `"`.
  */
  function LiteralBody(lit: seq<char>): (r: Option<seq<char>>)
    ensures r.Some? <==> |lit| >= 2 && lit[0] == '"' && lit[|lit| - 1] == '"'
    ensures r.Some? ==> lit == ['"'] + r.value + ['"']
  {
    if lit == [] || lit[|lit| - 1] != '"' then None
    else
      var popped := lit[..|lit| - 1];
      if popped == [] || popped[0] != '"' then None else Some(popped[1..])
  }

  lemma QuotedBody(body: seq<char>)
    ensures LiteralBody(['"'] + body + ['"']) == Some(body)
  {
    var lit := ['"'] + body + ['"'];
    assert lit[..|lit| - 1][1..] == body;
  }

  /** What the final `units.push(0)` of `utf16_null` adds: one zero unit, and nothing for `utf16`. */
  function Terminator(nullTerminate: bool): (r: seq<U16>)
    ensures |r| <= 1 && (r != [] <==> nullTerminate)
    ensures forall k :: 0 <= k < |r| ==> r[k] == 0
  {
    if nullTerminate then [0] else []
  }

  /** The units the macro writes out for the literal `lit`, or the reason it panics. */
  function Units(lit: seq<char>, nullTerminate: bool): (r: Result<seq<U16>, LitError>)
    ensures r == Failure(Usage) <==> LiteralBody(lit).None?
    ensures r.Failure? && r.error.EscapeError? ==>
              LiteralBody(lit).Some? && Escape(LiteralBody(lit).value) == Failure(r.error.esc)
    ensures r.Success? ==> LiteralBody(lit).Some? && Escape(LiteralBody(lit).value).Success?
    ensures r.Success? && nullTerminate ==> |r.value| >= 1 && r.value[|r.value| - 1] == 0
  {
    match LiteralBody(lit)
    case None => Failure(Usage)
    case Some(body) =>
      match Escape(body)
      case Failure(e) => Failure(EscapeError(e))
      case Success(chars) => Success(EncodeAll(chars) + Terminator(nullTerminate))
  }

  /** `ch.encode_utf16(&mut encode_buf)`: the units of `c` written to the front of the buffer. */
  method EncodeInto(c: char, buf: array<U16>) returns (n: nat)
    requires buf.Length == 2
    modifies buf
    ensures n <= buf.Length && buf[..n] == EncodeChar(c)
  {
    var units := EncodeChar(c);
    buf[0] := units[0];
    if |units| == 2 {
      buf[1] := units[1];
    }
    n := |units|;
    assert buf[..n] == units;
  }

  /** The body of `utf16` (`nullTerminate` false) and of `utf16_null` (true) after the token is taken apart. */
  method Utf16(lit: seq<char>, nullTerminate: bool) returns (r: Result<seq<U16>, LitError>)
    ensures r == Units(lit, nullTerminate)
  {
    var litString := lit;
    if litString == [] || litString[|litString| - 1] != '"' {
      return Failure(Usage);
    }
    litString := litString[..|litString| - 1];
    if litString == [] || litString[0] != '"' {
      return Failure(Usage);
    }
    var escaped := PerformTheEscaping(litString[1..]);
    if escaped.Failure? {
      return Failure(EscapeError(escaped.error));
    }
    var units := EncodeChars(escaped.value, nullTerminate);
    r := Success(units);
  }

  /** The encode loop of `utf16` and `utf16_null`, with the final `units.push(0)` of the latter. */
  method EncodeChars(allTheChars: seq<char>, nullTerminate: bool) returns (units: seq<U16>)
    ensures units == EncodeAll(allTheChars) + Terminator(nullTerminate)
  {
    units := [];
    var encodeBuf := new U16[2](_ => 0);
    for i := 0 to |allTheChars|
      invariant units == EncodeAll(allTheChars[..i])
    {
      var n := EncodeInto(allTheChars[i], encodeBuf);
      for j := 0 to n
        invariant encodeBuf[..n] == EncodeChar(allTheChars[i])
        invariant units == EncodeAll(allTheChars[..i]) + encodeBuf[..j]
      {
        assert encodeBuf[..j + 1] == encodeBuf[..j] + [encodeBuf[j]];
        units := units + [encodeBuf[j]];
      }
      assert encodeBuf[..n] == EncodeAll([allTheChars[i]]);
      EncodeAllAppend(allTheChars[..i], [allTheChars[i]]);
      assert allTheChars[..i + 1] == allTheChars[..i] + [allTheChars[i]];
    }
    assert allTheChars[..|allTheChars|] == allTheChars;
    if nullTerminate {
      units := units + [0];
    } else {
      assert units + [] == units;
    }
  }

  /**
    `utf16_null` gives what `utf16` gives with one `0` more at the end, and
    fails exactly when `utf16` does, for the same reason.
  */
  lemma NullTerminatorAppended(lit: seq<char>)
    ensures Units(lit, true).Success? <==> Units(lit, false).Success?
    ensures Units(lit, false).Success? ==>
              Units(lit, true).value == Units(lit, false).value + [0] &&
              |Units(lit, true).value| == |Units(lit, false).value| + 1 &&
              Units(lit, true).value[|Units(lit, true).value| - 1] == 0
    ensures Units(lit, false).Failure? ==> Units(lit, true).error == Units(lit, false).error
  {
    if Units(lit, false).Success? {
      assert Units(lit, false).value + [] == Units(lit, false).value;
    }
  }

  /** At most two units per decoded character, and the decoded text is at most as long as the body. */
  lemma UnitsBounds(lit: seq<char>, nullTerminate: bool)
    requires Units(lit, nullTerminate).Success?
    ensures var body := LiteralBody(lit).value;
      Escape(body).Success? &&
      |Escape(body).value| <= |body| == |lit| - 2 &&
      |Escape(body).value| + |Terminator(nullTerminate)| <= |Units(lit, nullTerminate).value|
                                                           <= 2 * |Escape(body).value| + |Terminator(nullTerminate)|
  {
  }

  /** A literal without a backslash is the UTF-16 of the text between its quotes. */
  lemma PlainLiteral(body: seq<char>, nullTerminate: bool)
    requires '\\' !in body
    ensures Units(['"'] + body + ['"'], nullTerminate) == Success(EncodeAll(body) + Terminator(nullTerminate))
  {
    var lit := ['"'] + body + ['"'];
    assert lit[..|lit| - 1][1..] == body;
    CharEscapeProperties.BackslashFree(body);
  }

  /** Every text is the value of some literal: the one `escape_default` writes for it. */
  lemma EscapedLiteral(cs: seq<char>, nullTerminate: bool)
    ensures var lit := ['"'] + CharEscapeProperties.EscapeDefault(cs) + ['"'];
      Units(lit, nullTerminate) == Success(EncodeAll(cs) + Terminator(nullTerminate))
  {
    var body := CharEscapeProperties.EscapeDefault(cs);
    var lit := ['"'] + body + ['"'];
    assert lit[..|lit| - 1][1..] == body;
    CharEscapeProperties.EscapeDefaultRoundTrip(cs);
  }

  /** A literal whose body decodes to `cs` gives the units of `cs`. */
  lemma DecodedLiteral(body: seq<char>, cs: seq<char>, nullTerminate: bool)
    requires Escape(body) == Success(cs)
    ensures Units(['"'] + body + ['"'], nullTerminate) == Success(EncodeAll(cs) + Terminator(nullTerminate))
  {
    QuotedBody(body);
  }

  /** A body that is one whole escape decodes to that escape's character. */
  lemma OneEscape(body: seq<char>, c: char)
    requires Step(body) == Some(Decoded(Escaped(c), |body|))
    ensures Escape(body) == Success([c])
  {
    var rest := body[|body|..];
    assert rest == [];
    assert Escape(rest) == Success([]);
    assert [c] + [] == [c];
  }

  /** `utf16!("example")` is the codes of its seven letters. */
  lemma ExampleLiteral()
    ensures Units("\"example\"", false) == Success([101, 120, 97, 109, 112, 108, 101])
  {
    var word := "example";
    assert "\"example\"" == ['"'] + word + ['"'];
    PlainLiteral(word, false);
    var units := EncodeAll(word);
    assert units + Terminator(false) == units;
    ExampleCodes();
    assert units == [101, 120, 97, 109, 112, 108, 101];
  }

  lemma ExampleCodes()
    ensures EncodeAll("example") == [101, 120, 97, 109, 112, 108, 101]
  {
    var w := "example";
    assert w[1..] == "xample";
    assert w[1..][1..] == "ample";
  }

  /**
    For a text without backslashes, as `"example"`, `utf16_null` gives what
    `utf16` gives for the same text followed by the escape `\0`.
  */
  lemma NullMatchesEscapedNul(word: seq<char>)
    requires '\\' !in word
    ensures Units(['"'] + word + ['"'], true) == Units(['"'] + word + "\\0" + ['"'], false)
  {
    var units := EncodeAll(word);
    PlainLiteral(word, true);
    var body := word + "\\0";
    EscapedNul(word, body);
    assert ['"'] + word + "\\0" + ['"'] == ['"'] + body + ['"'];
    DecodedLiteral(body, word + ['\0'], false);
    EncodeAllAppend(word, ['\0']);
    assert EncodeAll(['\0']) == [0] by { assert ['\0'][1..] == []; }
    assert EncodeAll(word + ['\0']) + Terminator(false) == units + [0];
  }

  /** A backslash-free text followed by `\0` decodes to that text and a NUL. */
  lemma EscapedNul(word: seq<char>, body: seq<char>)
    requires '\\' !in word && body == word + "\\0"
    ensures Escape(body) == Success(word + ['\0'])
  {
    CharEscapeProperties.SimpleEscapeSteps("\\0");
    OneEscape("\\0", '\0');
    CharEscapeProperties.PlainPrefix(word, "\\0");
  }

  /** An escape of one letter gives the unit of the character it stands for. */
  lemma SimpleEscapeLiteral(letter: char, c: char)
    requires (letter, c) in {('t', '\t'), ('n', '\n'), ('r', '\r'), ('\\', '\\'), ('0', '\0'), ('\'', '\''), ('"', '"')}
    ensures Units(['"', '\\', letter, '"'], false) == Success([c as int])
  {
    var body := ['\\', letter];
    CharEscapeProperties.SimpleEscapeSteps(body);
    OneEscape(body, c);
    assert ['"', '\\', letter, '"'] == ['"'] + body + ['"'];
    DecodedLiteral(body, [c], false);
    assert EncodeAll([c]) == EncodeChar(c) by { assert [c][1..] == []; }
  }

  /** The tests of the escapes of one letter: `\t` is 9, `\n` 10, `\r` 13, `\\` 92, `\0` 0, `\'` 39, `\"` 34. */
  lemma SimpleEscapeLiterals()
    ensures Units("\"\\t\"", false) == Success([9])
    ensures Units("\"\\n\"", false) == Success([10])
    ensures Units("\"\\r\"", false) == Success([13])
    ensures Units("\"\\\\\"", false) == Success([92])
    ensures Units("\"\\0\"", false) == Success([0])
    ensures Units("\"\\'\"", false) == Success([39])
    ensures Units("\"\\\"\"", false) == Success([34])
  {
    SimpleEscapeLiteral('t', '\t');
    SimpleEscapeLiteral('n', '\n');
    SimpleEscapeLiteral('r', '\r');
    SimpleEscapeLiteral('\\', '\\');
    SimpleEscapeLiteral('0', '\0');
    SimpleEscapeLiteral('\'', '\'');
    SimpleEscapeLiteral('"', '"');
  }

  /** `\x52` is `R`, one unit. */
  lemma HexEscapeLiteral()
    ensures Units("\"\\x52\"", false) == Success([82])
  {
    var body := "\\x52";
    CharEscapeProperties.HexEscapeStep(body);
    OneEscape(body, 'R');
    assert "\"\\x52\"" == ['"'] + body + ['"'];
    DecodedLiteral(body, ['R'], false);
    assert EncodeAll(['R']) == EncodeChar('R') by { assert ['R'][1..] == []; }
  }

  /** `\u{00B6}` is the pilcrow, one unit. */
  lemma UnicodeEscapeLiteral()
    ensures Units("\"\\u{00B6}\"", false) == Success([182])
  {
    var body := "\\u{00B6}";
    var t := body[2..];
    assert t == "{00B6}";
    CharEscapeProperties.NextBraceAt(t, 1, 5);
    assert AsU8s(t[1..5]) == [0x30, 0x30, 0x42, 0x36];
    assert Radix16.DigitsValue([0x30, 0x30, 0x42, 0x36]) == Some(182) by {
      assert [0x30, 0x30, 0x42, 0x36][..3] == [0x30, 0x30, 0x42];
      assert [0x30, 0x30, 0x42][..2] == [0x30, 0x30];
      assert [0x30, 0x30][..1] == [0x30];
      assert [0x30][..0] == [];
    }
    assert CharEscapeProperties.UnicodeEscapeFor(t, '\U{00B6}');
    CharEscapeProperties.UnicodeEscapeStep(body, '\U{00B6}');
    CharEscapeProperties.UnicodeEscapeLength(body);
    OneEscape(body, '\U{00B6}');
    assert "\"\\u{00B6}\"" == ['"'] + body + ['"'];
    DecodedLiteral(body, ['\U{00B6}'], false);
    assert EncodeAll(['\U{00B6}']) == EncodeChar('\U{00B6}') by { assert ['\U{00B6}'][1..] == []; }
  }
}
