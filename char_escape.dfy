/**
  The escape decoder of a string literal's body.

  `Step` is the specification of one call of the iterator's `next`: it looks
  at the characters not yet read and says which `CharEscape` comes out and
  how many characters that call reads. `CharEscapeIterator` is the iterator
  itself, a cursor over the text whose methods read one character at a time,
  and `PerformTheEscaping` is the loop that drains it.
*/
module CharEscapes {
  import opened Wrappers
  import opened Radix16

  datatype CharEscape =
    | Literal(ch: char)
    | Escaped(ch: char)
    | Improper(tag: char)
    | DanglingBackslash

  /** What one call of `next` yields, and how many characters it read. */
  datatype Decoded = Decoded(esc: CharEscape, len: nat)

  /** Where the `\u{..}` scan stops: at the end of the text, or just past a `}`. */
  datatype Scan = Unterminated | Closed(next: nat, overflow: bool, buffer: seq<Byte>)

  /** The size of the byte buffer of the `\u{..}` closure. */
  const BufferLen: nat := 6

  /** The value `usize::max_value()` marks an overflowed buffer with (a 64-bit target). */
  const UsizeMax: int := 0xFFFF_FFFF_FFFF_FFFF

  /** `ch as u8`: the low eight bits of the code point. */
  function AsU8(c: char): (b: Byte)
    ensures c as int < 0x100 ==> b == c as int
  {
    (c as int) % 0x100
  }

  function AsU8s(cs: seq<char>): (r: seq<Byte>)
    ensures |r| == |cs| && forall k :: 0 <= k < |cs| ==> r[k] == AsU8(cs[k])
  {
    seq(|cs|, k requires 0 <= k < |cs| => AsU8(cs[k]))
  }

  /** `char::from_u32`: the code points that are Unicode scalar values are characters. */
  function FromU32(u: int): (r: Option<char>)
    ensures r.Some? ==> r.value as int == u
    ensures r.None? ==> u < 0 || 0xD800 <= u < 0xE000 || u > 0x10FFFF
  {
    if 0 <= u < 0xD800 || 0xE000 <= u <= 0x10FFFF then Some(u as char) else None
  }

  /**
    The seven escapes of one letter after the backslash. Each stands for an
    ASCII character, and three of them (`\\`, `\'`, `\"`) for the letter itself.
  */
  function SimpleEscape(follow: char): (r: Option<char>)
    ensures r.Some? <==> follow in {'0', 'n', 'r', 't', '\\', '\'', '"'}
    ensures r.Some? ==> r.value as int < 0x80
    ensures r.Some? ==> (r.value == follow <==> follow in {'\\', '\'', '"'})
  {
    match follow
    case '0' => Some('\0')
    case 'n' => Some('\n')
    case 'r' => Some('\r')
    case 't' => Some('\t')
    case '\\' => Some('\\')
    case '\'' => Some('\'')
    case '"' => Some('"')
    case _ => None
  }

  /**
    The `\x` closure on the text after `\x`: both characters are read before
    either is checked; the closure fails, and `Improper('x')` results, when
    one is missing, is not a hex digit, or the byte is 128 or more. The
    digits are tested on the code point, where the code runs
    `u8::from_str_radix` on the character's UTF-8 bytes: the two agree,
    because every byte of a multi-byte encoding is 0x80 or more and a lone
    `+` is refused.
  */
  function HexTail(t: seq<char>): (d: Decoded)
    ensures d.len == if |t| < 2 then |t| else 2
    ensures d.esc.Escaped? || d.esc == Improper('x')
  {
    if |t| < 2 then Decoded(Improper('x'), |t|)
    else
      match (DigitValue(t[0] as int), DigitValue(t[1] as int))
      case (Some(a), Some(b)) =>
        if 16 * a + b < 128 then Decoded(Escaped((16 * a + b) as char), 2)
        else Decoded(Improper('x'), 2)
      case _ => Decoded(Improper('x'), 2)
  }

  /**
    The loop of the `\u` closure, from index `k` of `t` with the buffer so far:
    every character other than `}` is stored as its low byte while the buffer
    has room and sets the overflow mark once it has none; `}` ends the scan.
  */
  function BraceScan(t: seq<char>, k: nat, buffer: seq<Byte>, overflow: bool): (r: Scan)
    requires k <= |t| && |buffer| <= BufferLen
    ensures r.Closed? ==> k < r.next <= |t| && |r.buffer| <= BufferLen
    ensures r.Closed? ==> t[r.next - 1] == '}' && forall m :: k <= m < r.next - 1 ==> t[m] != '}'
    decreases |t| - k
  {
    if k == |t| then Unterminated
    else if t[k] == '}' then Closed(k + 1, overflow, buffer)
    else if overflow || |buffer| >= BufferLen then BraceScan(t, k + 1, buffer, true)
    else BraceScan(t, k + 1, buffer + [AsU8(t[k])], false)
  }

  /**
    The `\u` closure on the text after `\u`: it reads one character whatever
    it is and fails unless it was `{`; then it scans to `}` and parses the
    buffered bytes as a hexadecimal scalar value.
  */
  function UnicodeTail(t: seq<char>): (d: Decoded)
    ensures d.len <= |t|
    ensures d.esc.Escaped? || d.esc == Improper('u')
  {
    if t == [] then Decoded(Improper('u'), 0)
    else if t[0] != '{' then Decoded(Improper('u'), 1)
    else
      match BraceScan(t, 1, [], false)
      case Unterminated => Decoded(Improper('u'), |t|)
      case Closed(n, overflow, buffer) =>
        var u := if overflow then None else ParseU32(buffer);
        var c := if u.Some? then FromU32(u.value) else None;
        if c.Some? then Decoded(Escaped(c.value), n) else Decoded(Improper('u'), n)
  }

  /**
    One call of `next` on the characters `s` not yet read: None when there
    are none, otherwise the result and the number of characters it reads.
  */
  function Step(s: seq<char>): (r: Option<Decoded>)
    ensures r.None? <==> s == []
    ensures r.Some? ==> 1 <= r.value.len <= |s|
  {
    if s == [] then None
    else if s[0] != '\\' then Some(Decoded(Literal(s[0]), 1))
    else if |s| == 1 then Some(Decoded(DanglingBackslash, 1))
    else
      var follow := s[1];
      match SimpleEscape(follow)
      case Some(c) => Some(Decoded(Escaped(c), 2))
      case None =>
        if follow == 'x' then
          var d := HexTail(s[2..]);
          Some(Decoded(d.esc, 2 + d.len))
        else if follow == 'u' then
          var d := UnicodeTail(s[2..]);
          Some(Decoded(d.esc, 2 + d.len))
        else Some(Decoded(Improper(follow), 2))
  }

  /** Everything the iterator yields over `s`, in order. */
  function Decode(s: seq<char>): (r: seq<CharEscape>)
    ensures |r| <= |s|
    ensures (r == []) <==> (s == [])
    decreases |s|
  {
    match Step(s)
    case None => []
    case Some(d) => [d.esc] + Decode(s[d.len..])
  }

  /**
    What `perform_the_escaping` returns for `s`: the characters of the
    `Literal` and `Escaped` results in order, or the first other result, the
    one the loop panics on.
  */
  function Escape(s: seq<char>): (r: Result<seq<char>, CharEscape>)
    ensures r.Success? ==> |r.value| <= |s|
    ensures r.Failure? ==> r.error.Improper? || r.error.DanglingBackslash?
    decreases |s|
  {
    match Step(s)
    case None => Success([])
    case Some(d) =>
      if d.esc.Literal? || d.esc.Escaped? then
        match Escape(s[d.len..])
        case Success(rest) => Success([d.esc.ch] + rest)
        case Failure(e) => Failure(e)
      else Failure(d.esc)
  }

  function Prepend(out: seq<char>, r: Result<seq<char>, CharEscape>): (p: Result<seq<char>, CharEscape>)
    ensures p.Success? <==> r.Success?
    ensures p.Success? ==> |p.value| == |out| + |r.value|
  {
    match r
    case Success(rest) => Success(out + rest)
    case Failure(e) => Failure(e)
  }

  lemma PrependAssociates(out: seq<char>, more: seq<char>, r: Result<seq<char>, CharEscape>)
    ensures Prepend(out, Prepend(more, r)) == Prepend(out + more, r)
    ensures Prepend([], r) == r && Prepend(out, Success([])) == Success(out)
  {
    if r.Success? {
      assert out + (more + r.value) == (out + more) + r.value;
      assert [] + r.value == r.value;
    }
    assert out + [] == out;
  }

  /** `CharEscapeIterator` over `line.chars()`: the text and how much of it has been read. */
  class CharEscapeIterator {
    const text: seq<char>
    var pos: nat

    ghost predicate Valid()
      reads this
    {
      pos <= |text|
    }

    constructor (text: seq<char>)
      ensures Valid() && this.text == text && pos == 0
    {
      this.text := text;
      pos := 0;
    }

    /** `self.it.next()`: the next character of the text, if any, and the cursor moves past it. */
    method NextChar() returns (c: Option<char>)
      requires Valid()
      modifies this`pos
      ensures Valid()
      ensures old(pos) == |text| ==> c == None && pos == old(pos)
      ensures old(pos) < |text| ==> c == Some(text[old(pos)]) && pos == old(pos) + 1
    {
      if pos == |text| {
        c := None;
      } else {
        c := Some(text[pos]);
        pos := pos + 1;
      }
    }

    /** The closure behind `\x`; None is the closure's failure. */
    method NextHex() returns (r: Option<CharEscape>)
      requires Valid()
      modifies this`pos
      ensures Valid() && old(pos) <= pos
      ensures r.Some? ==> r.value.Escaped?
      ensures HexTail(old(text[pos..])) == Decoded(if r.Some? then r.value else Improper('x'), pos - old(pos))
    {
      ghost var t := text[pos..];
      var d1 := NextChar();
      if d1.None? { return None; }
      var d2 := NextChar();
      if d2.None? { return None; }
      var a := DigitValue(d1.value as int);
      if a.None? { return None; }
      var b := DigitValue(d2.value as int);
      if b.None? { return None; }
      var c := 16 * a.value + b.value;
      if c < 128 {
        r := Some(Escaped(c as char));
      } else {
        r := None;
      }
    }

    /** The closure behind `\u`, with its six-byte buffer; None is the closure's failure. */
    method NextUnicode() returns (r: Option<CharEscape>)
      requires Valid()
      modifies this`pos
      ensures Valid() && old(pos) <= pos
      ensures r.Some? ==> r.value.Escaped?
      ensures UnicodeTail(old(text[pos..])) == Decoded(if r.Some? then r.value else Improper('u'), pos - old(pos))
    {
      ghost var start := pos;
      ghost var t := text[pos..];
      var openBrace := NextChar();
      if openBrace != Some('{') { return None; }
      var buffer := new Byte[BufferLen](_ => 0);
      var bufferIndex := 0;
      while true
        invariant Valid() && start < pos <= |text| && t == text[start..]
        invariant 0 <= bufferIndex <= BufferLen || bufferIndex == UsizeMax
        invariant BraceScan(t, pos - start, if bufferIndex == UsizeMax then buffer[..] else buffer[..bufferIndex],
                            bufferIndex == UsizeMax)
               == BraceScan(t, 1, [], false)
        decreases |text| - pos
      {
        var nextCh := NextChar();
        if nextCh.None? { return None; }
        assert t[pos - 1 - start] == nextCh.value;
        if nextCh.value == '}' {
          break;
        } else if bufferIndex >= buffer.Length {
          assert bufferIndex == BufferLen ==> buffer[..] == buffer[..bufferIndex];
          bufferIndex := UsizeMax;
        } else {
          ghost var stored := buffer[..bufferIndex];
          buffer[bufferIndex] := AsU8(nextCh.value);
          bufferIndex := bufferIndex + 1;
          assert buffer[..bufferIndex] == stored + [AsU8(nextCh.value)];
        }
      }
      if bufferIndex == UsizeMax { return None; }
      var u := ParseU32(buffer[..bufferIndex]);
      if u.None? { return None; }
      var c := FromU32(u.value);
      if c.None? { return None; }
      r := Some(Escaped(c.value));
    }

    /** `next`: one plain character or one whole escape, or None once the text is used up. */
    method Next() returns (r: Option<CharEscape>)
      requires Valid()
      modifies this`pos
      ensures Valid()
      ensures match Step(old(text[pos..]))
              case None => r == None && pos == old(pos)
              case Some(d) => r == Some(d.esc) && pos == old(pos) + d.len
    {
      var ch := NextChar();
      if ch.None? { return None; }
      if ch.value != '\\' { return Some(Literal(ch.value)); }
      var follow := NextChar();
      if follow.None? { return Some(DanglingBackslash); }
      match follow.value {
        case '0' => r := Some(Escaped('\0'));
        case 'n' => r := Some(Escaped('\n'));
        case 'r' => r := Some(Escaped('\r'));
        case 't' => r := Some(Escaped('\t'));
        case '\\' => r := Some(Escaped('\\'));
        case '\'' => r := Some(Escaped('\''));
        case '"' => r := Some(Escaped('"'));
        case 'x' =>
          var inner := NextHex();
          r := if inner.Some? then inner else Some(Improper('x'));
        case 'u' =>
          var inner := NextUnicode();
          r := if inner.Some? then inner else Some(Improper('u'));
        case imp => r := Some(Improper(imp));
      }
    }
  }

  /** `Escape` after one step: the step's character in front of the rest, or the step's result as the failure. */
  lemma EscapeUnfold(s: seq<char>)
    requires s != []
    ensures var d := Step(s).value;
      Escape(s) == if d.esc.Literal? || d.esc.Escaped? then Prepend([d.esc.ch], Escape(s[d.len..])) else Failure(d.esc)
  {
  }

  /** `perform_the_escaping`: drain the iterator, keep the characters, stop at the first malformed escape. */
  method PerformTheEscaping(line: seq<char>) returns (r: Result<seq<char>, CharEscape>)
    ensures r == Escape(line)
  {
    var out: seq<char> := [];
    var it := new CharEscapeIterator(line);
    assert line[it.pos..] == line;
    PrependAssociates([], [], Escape(line));
    while true
      invariant it.Valid() && it.text == line
      invariant Escape(line) == Prepend(out, Escape(line[it.pos..]))
      decreases |line| - it.pos
    {
      ghost var rest := line[it.pos..];
      var escCh := it.Next();
      if escCh.None? {
        PrependAssociates(out, [], Escape(rest));
        return Success(out);
      }
      EscapeUnfold(rest);
      assert line[it.pos..] == rest[Step(rest).value.len..];
      match escCh.value {
        case Escaped(ch) =>
          PrependAssociates(out, [ch], Escape(line[it.pos..]));
          out := out + [ch];
        case Literal(ch) =>
          PrependAssociates(out, [ch], Escape(line[it.pos..]));
          out := out + [ch];
        case other =>
          return Failure(other);
      }
    }
  }
}
