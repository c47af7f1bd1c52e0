# utf16_lit in Dafny

A model of the work done by the `utf16!` and `utf16_null!` procedural macros of
the Rust crate `utf16_lit`. They take the text of a string literal token and
turn it into a slice of UTF-16 code units at compile time. The model covers
these steps:

- strip the quotes;
- resolve the backslash escapes (`\0 \n \r \t \\ \' \"`, `\xHH`, `\u{..}`);
- encode each resulting character as one or two UTF-16 units (section 2.1 of
  RFC 2781);
- for `utf16_null!`, push one terminating `0`.

The modules are:

- `CharEscapes` (`char_escape.dfy`) is the escape decoder of
  `src/char_escape.rs`:
  - the `CharEscape` enum;
  - the iterator as a class `CharEscapeIterator`, which holds the text and a
    cursor `pos` and reads one character at a time;
  - its `\x` and `\u` closures as methods. The `\u` method has its six-byte
    `array` buffer and the `usize::MAX` overflow mark;
  - the draining loop `PerformTheEscaping`.

  Each method is proved against a specification function on the unread text.
  - `Step` says what one call of `next` yields and how many characters it
    reads.
  - `Escape` says what `perform_the_escaping` returns.
- `CharEscapeProperties` proves what the decoder promises about each kind of
  escape: its result, and how far it reads. It also proves that `Escape` keeps
  the iterator's characters in order and stops at the first malformed escape.
  As an independent partner it defines Rust's `char::escape_default`, and
  proves that the decoder reads that output back to the original text.
- `Radix16` (`radix16.dfy`) models the library rules the decoder relies on:
  - the radix-16 digit rule that `u8::from_str_radix` and
    `u32::from_str_radix` apply to each byte;
  - the input that `u32::from_str_radix(s, 16)` accepts: one optional `+`,
    then at least one hex digit, with the value in 32 bits;
  - a lower-case hex formatter used by the round trip.
- `Utf16Encoding` (`utf16.dfy`) has `char::encode_utf16` and
  `str::encode_utf16`, with a UTF-16 decoder as their inverse.
- `Utf16Lit` (`utf16_lit.dfy`) covers the body of both macros after the token
  has been taken apart. The two macros differ only in the final push, so they
  are one method, `Utf16`, with a `nullTerminate` flag. That method:
  - strips the quotes;
  - runs `PerformTheEscaping`;
  - runs the nested encode loop over a two-unit `encode_buf`.

  The specification function `Units` gives either the units or the reason
  for failure:
  - `Usage` stands for the `assert!(.., USAGE)` panics;
  - `EscapeError(e)` stands for the `escape sequence error` panic.

  The module also proves the cases of the crate's own tests.
- `Wrappers` (`wrappers.dfy`) holds `Option` and `Result`.

Behaviours of the code worth noting (the model follows the code):

- `\u` always reads the character after the `u`, even when it is not `{`.
- Inside `\u{..}`, the six-slot limit counts every character other than `}`,
  not only hex digits.
- Each such character is stored as the low byte of its code point
  (`next_ch as u8`). So a non-ASCII character whose low byte is a hex digit
  counts as that digit. `CharEscapeProperties.LowByteStandsInForDigit` shows
  this.
- The braced text may start with `+`, because `from_str_radix` accepts one.
  `CharEscapeProperties.PlusSignAccepted` shows this.
- The model starts from the literal's text with its quotes, as the macro body
  does (src/lib.rs:57-59).
- A failure carries the offending `CharEscape` value (`Improper(c)` or
  `DanglingBackslash`), the value the panic of src/char_escape.rs:111 prints.

## Model

| member | source | states |
|---|---|---|
| CharEscapes.AsU8 | src/char_escape.rs:76 | `next_ch as u8` keeps the code point of a character below 0x100 unchanged |
| CharEscapes.FromU32 | src/char_escape.rs:85 | `char::from_u32` gives the character with that code point, and gives none exactly for negatives, surrogates and values above 0x10FFFF |
| CharEscapes.AsU8s | src/char_escape.rs:76 | the buffer fill stores one byte per character, in order, each the `as u8` of that character |
| CharEscapes.SimpleEscape | src/char_escape.rs:36-42 | exactly the seven letters `0 n r t \ ' "` are one-letter escapes; each stands for an ASCII character, and it is the letter itself exactly for `\`, `'` and `"` |
| CharEscapes.HexTail | src/char_escape.rs:44-57 | the `\x` closure reads two characters, or as many as remain, and yields `Escaped` or `Improper('x')` |
| CharEscapes.BraceScan | src/char_escape.rs:67-79 | the `\u` loop, when it closes, stops just past the first `}` at or after where it started, inside the text, and its buffer never exceeds six bytes |
| CharEscapes.UnicodeTail | src/char_escape.rs:60-87 | the `\u` closure reads no more than the remaining text, and yields `Escaped` or `Improper('u')` |
| CharEscapes.Step | src/char_escape.rs:30-100 | `next` yields None exactly on an empty remainder; every other call reads at least one character and no more than remain |
| CharEscapes.Decode | src/char_escape.rs:108 | draining the iterator gives no more results than characters, and none only for the empty text |
| CharEscapes.Escape | src/char_escape.rs:103-116 | the escaped text is no longer than the input; a failure is always an `Improper` or a `DanglingBackslash` |
| CharEscapes.CharEscapeIterator.constructor | src/char_escape.rs:20-22 | a new iterator is at the start of its text |
| CharEscapes.CharEscapeIterator.NextChar | src/char_escape.rs:31 | `self.it.next()` returns the character at the cursor and advances by one, or returns None at the end without moving |
| CharEscapes.CharEscapeIterator.NextHex | src/char_escape.rs:44-56 | the `\x` closure, with its early returns, yields exactly what `HexTail` specifies and advances by the length `HexTail` gives |
| CharEscapes.CharEscapeIterator.NextUnicode | src/char_escape.rs:60-86 | the `\u` closure, with its six-byte array and the `usize::MAX` overflow mark, yields exactly what `UnicodeTail` specifies and advances by the length it gives |
| CharEscapes.CharEscapeIterator.Next | src/char_escape.rs:30-100 | `next` yields the result `Step` gives for the unread text and advances the cursor by exactly the step's length; at the end it yields None and stays put |
| CharEscapes.PerformTheEscaping | src/char_escape.rs:103-116 | the `while let` loop returns exactly `Escape(line)`: the characters in order, or the first malformed escape |
| Radix16.DigitValue | src/char_escape.rs:48-49 | the digit rule of `from_str_radix` gives a value below 16, and only for an ASCII code that is not `+`; a code is accepted only when it is the hex digit of its value, in lower case or, from 10 up, in upper case, so every other code is refused |
| Radix16.HexDigitsAccepted | src/char_escape.rs:48-49 | every hex digit is accepted with its value: `0-9` and `a-f` as the formatter writes them, and `A-F` for 10 to 15 |
| Radix16.DigitsValue | src/char_escape.rs:84 | the value of n digits is below 16^n, and a value exists only when every byte is a digit |
| Radix16.ParseU32 | src/char_escape.rs:84 | `u32::from_str_radix(s, 16)` accepts only a non-empty text of hex digits, with at most one leading `+` before at least one digit, and its value fits in 32 bits |
| Radix16.ParseU32IsAscii | src/char_escape.rs:83-84 | every byte `from_str_radix` accepts is ASCII, so the `from_utf8` check before it never decides the outcome |
| Radix16.ParseU32Short | src/char_escape.rs:65 | with the six-byte buffer, the parsed value is below 0x1000000, and every well-formed digit text is accepted with its value, so the 32-bit overflow check never fires |
| Radix16.HexStringParses | src/char_escape.rs:84 | parsing the lower-case hex form of n gives n back |
| CharEscapeProperties.NextBrace | src/char_escape.rs:67-70 | the index of the first `}` at or after k, or the text's length when there is none |
| CharEscapeProperties.BraceScanCloses | src/char_escape.rs:67-81 | the `\u` loop ends just past the first `}`, or is unterminated when there is none; it overflows exactly when more than six characters precede the `}`; otherwise its buffer is their low bytes in order |
| CharEscapeProperties.LiteralStep | src/char_escape.rs:95 | a character other than a backslash is `Literal` of itself and reads one character |
| CharEscapeProperties.SimpleEscapeSteps | src/char_escape.rs:36-42 | each of `\0 \n \r \t \\ \' \"` is `Escaped` with U+0000, U+000A, U+000D, U+0009, `\`, `'`, `"` and reads two characters |
| CharEscapeProperties.OtherBackslashSteps | src/char_escape.rs:89-92 | a backslash before any character outside the escape table is `Improper` of that character and reads two characters; a final backslash is `DanglingBackslash` |
| CharEscapeProperties.HexEscapeStep | src/char_escape.rs:43-57 | `\x` reads up to two more characters. It is `Escaped` exactly when both are hex digits with a byte below 128, and that byte is the character. Otherwise it is `Improper('x')` |
| CharEscapeProperties.UnicodeTailCases | src/char_escape.rs:60-87 | a `\u{` escape is unterminated without `}`, improper with more than six characters before it, and otherwise the scalar value of its parsed low bytes |
| CharEscapeProperties.UnicodeEscapeStep | src/char_escape.rs:59-88 | `\u` is `Escaped(c)` exactly when a `{` follows, at most six characters precede the first `}`, and their low bytes parse to c; every other `\u` is `Improper('u')` |
| CharEscapeProperties.UnicodeEscapeLength | src/char_escape.rs:61-81 | `\u` reads the character after the `u` whatever it is; after `{` it reads through the first `}` however far that is, or to the end of the text |
| CharEscapeProperties.EscapeKeepsOrder | src/char_escape.rs:108-112 | the loop succeeds exactly when every result is `Literal` or `Escaped`, and then returns their characters in order; otherwise it fails with the first other result |
| CharEscapeProperties.PlainPrefix | src/char_escape.rs:110 | text with no backslash passes through unchanged in front of whatever the rest decodes to |
| CharEscapeProperties.BackslashFree | src/char_escape.rs:103-116 | a text without a backslash escapes to itself |
| CharEscapeProperties.HexFormParses | src/char_escape.rs:65-85 | the hex digits of a scalar value fit the six-byte buffer, contain no `}`, and parse back to the value |
| CharEscapeProperties.BracedHexNames | src/char_escape.rs:67-84 | `{`, the hex digits of c and `}` close at that `}` and name c |
| CharEscapeProperties.UnicodeFormDecodes | src/char_escape.rs:59-88 | `\u{hex of c}` decodes to c and reads exactly its own length, whatever follows |
| CharEscapeProperties.EscapeDefaultCharDecodes | src/char_escape.rs:30-100 | the decoder reads the escaped form of any character back to that character, with exactly that form's length |
| CharEscapeProperties.EscapeDefaultRoundTrip | src/char_escape.rs:103-116 | decoding the escaped form of any text gives the text back, so every text is reachable through some literal |
| CharEscapeProperties.LowByteStandsInForDigit | src/char_escape.rs:76 | `\u{Ł}` decodes to U+000A because only the low byte 0x41 of U+0141 is stored |
| CharEscapeProperties.NonDigitHexRefused | src/char_escape.rs:48-57 | `\xZZ` is `Improper('x')` and reads four characters |
| CharEscapeProperties.PlusSignAccepted | src/char_escape.rs:84 | `\u{+41}` decodes to `A` and reads seven characters |
| Utf16Encoding.EncodeChar | src/lib.rs:68 | a scalar value up to 0xFFFF is one unit equal to it and not a surrogate; above that it is a high surrogate then a low one, whose combined value is the code point |
| Utf16Encoding.EncodeAll | src/lib.rs:67-71 | n characters give between n and 2n units |
| Utf16Encoding.EncodeAllAppend | src/lib.rs:67-71 | encoding concatenated text gives the concatenated encodings |
| Utf16Encoding.DecodeEncode | src/lib.rs:67-71 | decoding the units gives the characters back |
| Utf16Encoding.EncodeGrinningFace | src/lib.rs:68 | U+1F600 is encoded as D83D DE00 |
| Utf16Lit.LiteralBody | src/lib.rs:57-59 | the body exists exactly when the literal has at least two characters and starts and ends with `"`; the literal is then the body between two quotes |
| Utf16Lit.Terminator | src/lib.rs:119 | the final push adds exactly one unit, a 0, for `utf16_null!`, and nothing for `utf16!` |
| Utf16Lit.Units | src/lib.rs:104-119 | the macro body fails with `Usage` exactly when the quotes are missing; it fails with an escape error exactly when the body's decoding fails with that escape; on success the body decodes, and for `utf16_null!` the last unit is 0 |
| Utf16Lit.QuotedBody | src/lib.rs:57-64 | only the characters strictly between the quotes are decoded |
| Utf16Lit.EncodeInto | src/lib.rs:66-68 | `encode_utf16` writes a character's units to the front of the two-unit buffer and returns that many |
| Utf16Lit.Utf16 | src/lib.rs:57-64 | the macro body returns exactly `Units(lit, nullTerminate)`: `Usage` on a missing quote, the first malformed escape, or the units |
| Utf16Lit.EncodeChars | src/lib.rs:111-119 | the nested loops push the encodings of the characters in order, then one 0 when null-terminating |
| Utf16Lit.NullTerminatorAppended | src/lib.rs:119 | `utf16_null!` succeeds exactly when `utf16!` does, and then gives the same units plus one trailing 0; its failures are the same |
| Utf16Lit.UnitsBounds | src/lib.rs:65 | for d decoded characters, the output has between d and 2d units, plus the terminator; d is at most the body's length |
| Utf16Lit.PlainLiteral | src/lib.rs:13-17 | a literal without backslashes gives `encode_utf16` of its body, plus a 0 for `utf16_null!` |
| Utf16Lit.EscapedLiteral | src/lib.rs:64-71 | the literal that `escape_default` writes for any text gives that text's UTF-16 |
| Utf16Lit.DecodedLiteral | src/lib.rs:64-71 | a body that decodes to cs gives the UTF-16 of cs |
| Utf16Lit.OneEscape | src/char_escape.rs:108-115 | a body that is one whole escape decodes to that escape's character |
| Utf16Lit.ExampleLiteral | tests/utf16.rs:4-7 | `utf16!("example")` is 101 120 97 109 112 108 101 |
| Utf16Lit.ExampleCodes | tests/utf16.rs:5 | `"example".encode_utf16()` is 101 120 97 109 112 108 101 |
| Utf16Lit.NullMatchesEscapedNul | src/lib.rs:16-19 | for any text without backslashes, such as `example`, `utf16_null!` of it equals `utf16!` of it followed by `\0` |
| Utf16Lit.EscapedNul | src/lib.rs:18 | a text without backslashes followed by `\0` decodes to that text and a NUL |
| Utf16Lit.SimpleEscapeLiteral | tests/utf16.rs:9-49 | a literal that is one escape of one letter gives the single unit of the character it stands for |
| Utf16Lit.SimpleEscapeLiterals | tests/utf16.rs:9-49 | `\t` `\n` `\r` `\\` `\0` `\'` `\"` give 9, 10, 13, 92, 0, 39, 34 |
| Utf16Lit.HexEscapeLiteral | tests/utf16.rs:51-55 | `"\x52"` gives the single unit 82 |
| Utf16Lit.UnicodeEscapeLiteral | tests/utf16.rs:57-61 | `"\u{00B6}"` gives the single unit 182 |

## Left out

- The token handling is not modelled: taking the single `TokenTree::Literal` from the `TokenStream`, `lit.to_string()`, and writing the units back with `format!` and `TokenStream::from_str` (src/lib.rs:45-50, 76-77, 92-97, 123-125). This is compiler plumbing; the model starts from the literal's text.
- Panics are modelled as failure values: `Usage` for the USAGE asserts, `EscapeError` for the escape panic. The message text is not modelled.
- Raw string literals (`r"\"`, `r#"\"#`) fail with `Usage`, as in the code. For `r"\"` the popped last character is `"` but the first character is `r`. For `r#"\"#` and `r##"\"##` the popped last character is `#`, so the first assert already fails. The raw-string test in tests/utf16_null.rs expects them to work; that expectation is not modelled.
- tests/usage_test.rs is not part of this model. It uses a macro the library does not define.
- `from_str_radix`, `from_utf8`, `char::from_u32` and `encode_utf16` are modelled by the rules they follow, not by their library code.
- The `from_utf8` check on the buffer is not a separate step. `from_str_radix` accepts only ASCII bytes, and `Radix16.ParseU32IsAscii` proves that the check never changes the outcome.
- `Utf16Encoding.EncodeChar`: the surrogates `0xD800 | (v >> 10)` and `0xDC00 | (v & 0x3FF)` are written as additions, `0xD800 + v / 0x400` and `0xDC00 + v % 0x400`. Both shifted parts are below 0x400 and the low ten bits of the bases are zero, so or-ing equals adding. The bitwise identity itself is not proved.
- The two-unit buffer `encode_buf` is kept as an array. `units` is a sequence, so the `Vec::with_capacity` reservation is not modelled.
- `UsizeMax` is the 64-bit value of `usize::MAX`. On any target the buffer index cannot reach it by counting, so the width does not matter.
- The iterator is generic over any `Iterator<Item = char>`; the model fixes it to the characters of one text, which is the only way the crate uses it.
