/**
 * CharArray: a cursor with a position and a mark over a fixed array of
 * characters, and the scanning primitives the text parser is built on.
 */
module Cursor {
  import opened Chars

  predicate IsLineTerminator(c: char) { c == '\n' || c == '\r' }

  /** The characters readStringOrNumber accepts in a bare token. */
  predicate IsTokenChar(c: char)
  {
    c == '\'' || c == '/' || c == '.' || c == '_' || c == '-' || c == ':' || IsLetterOrDigit(c)
  }

  /** The index of the first line terminator at or after p, or |s|. */
  function LineEnd(s: seq<char>, p: nat): (e: nat)
    requires p <= |s|
    ensures p <= e <= |s|
    ensures forall i :: p <= i < e ==> !IsLineTerminator(s[i])
    ensures e < |s| ==> IsLineTerminator(s[e])
    decreases |s| - p
  {
    if p == |s| || IsLineTerminator(s[p]) then p else LineEnd(s, p + 1)
  }

  /** The index of the first double quote at or after p, or |s|. */
  function QuoteEnd(s: seq<char>, p: nat): (e: nat)
    requires p <= |s|
    ensures p <= e <= |s|
    ensures forall i :: p <= i < e ==> s[i] != '"'
    ensures e < |s| ==> s[e] == '"'
    decreases |s| - p
  {
    if p == |s| || s[p] == '"' then p else QuoteEnd(s, p + 1)
  }

  /** The end of the longest run of token characters starting at p. */
  function TokenEnd(s: seq<char>, p: nat): (e: nat)
    requires p <= |s|
    ensures p <= e <= |s|
    ensures forall i :: p <= i < e ==> IsTokenChar(s[i]) && !IsWhitespace(s[i])
    ensures e < |s| ==> IsWhitespace(s[e]) || !IsTokenChar(s[e])
    decreases |s| - p
  {
    if p == |s| || IsWhitespace(s[p]) || !IsTokenChar(s[p]) then p else TokenEnd(s, p + 1)
  }

  /** The quoted text from p ends at e when no character in between is a
    * double quote and the one at e is. */
  lemma QuoteEndIs(s: seq<char>, p: nat, e: nat)
    requires p <= e <= |s|
    requires forall i :: p <= i < e ==> s[i] != '"'
    requires e < |s| ==> s[e] == '"'
    ensures QuoteEnd(s, p) == e
    decreases e - p
  {
    if p < e {
      QuoteEndIs(s, p + 1, e);
    }
  }

  /** new char[n]: a fresh array of n '\0' characters. */
  method NewBuffer(n: nat) returns (b: array<char>)
    ensures fresh(b) && b.Length == n && b[..] == Zeros(n)
  {
    b := new char[n](_ => '\0');
  }

  /** A fresh buffer of '\0' with a window from a overwritten by body. */
  lemma FillWindow(before: seq<char>, after: seq<char>, total: nat, a: nat, body: seq<char>, rest: int)
    requires before == Zeros(total) && a + |body| <= total && rest == total - a - |body|
    requires (after == before && body == []) || after == before[..a] + body + before[a + |body|..]
    ensures after == Zeros(a) + body + Zeros(rest)
  {
    assert before[..a] == Zeros(a);
    assert before[a + |body|..] == Zeros(total - a - |body|);
    if after == before && body == [] {
      assert before == before[..a] + before[a..];
    }
  }

  /** The line from p ends at e when no character in between ends it and the
    * one at e does. */
  lemma LineEndIs(s: seq<char>, p: nat, e: nat)
    requires p <= e <= |s|
    requires forall i :: p <= i < e ==> !IsLineTerminator(s[i])
    requires e < |s| ==> IsLineTerminator(s[e])
    ensures LineEnd(s, p) == e
    decreases e - p
  {
    if p < e {
      LineEndIs(s, p + 1, e);
    }
  }

  /** A sequence that agrees with `before` except on the window from offset,
    * where it holds d, is `before` with that window replaced. */
  lemma Spliced(a: seq<char>, before: seq<char>, d: seq<char>, offset: nat)
    requires |a| == |before| && offset + |d| <= |a|
    requires forall j :: 0 <= j < |a| ==>
      a[j] == if offset <= j < offset + |d| then d[j - offset] else before[j]
    ensures a == before[..offset] + d + before[offset + |d|..]
  {
  }

  /** The run of token characters from p ends at e when every character in
    * between is one and the one at e is not. */
  lemma TokenEndIs(s: seq<char>, p: nat, e: nat)
    requires p <= e <= |s|
    requires forall i :: p <= i < e ==> IsTokenChar(s[i]) && !IsWhitespace(s[i])
    requires e < |s| ==> IsWhitespace(s[e]) || !IsTokenChar(s[e])
    ensures TokenEnd(s, p) == e
    decreases e - p
  {
    if p < e {
      TokenEndIs(s, p + 1, e);
    }
  }

  predicate IsStop(c: char, stop: char, stopEndOfLine: bool)
  {
    (stopEndOfLine && c == '\n') || c == stop
  }

  /** The index of the first stop character at or after p, or |s|. */
  function StopIndex(s: seq<char>, p: nat, stop: char, stopEndOfLine: bool): (e: nat)
    requires p <= |s|
    ensures p <= e <= |s|
    ensures forall i :: p <= i < e ==> !IsStop(s[i], stop, stopEndOfLine)
    ensures e < |s| ==> IsStop(s[e], stop, stopEndOfLine)
    decreases |s| - p
  {
    if p == |s| || IsStop(s[p], stop, stopEndOfLine) then p else StopIndex(s, p + 1, stop, stopEndOfLine)
  }

  /** Where a line scan from p leaves the cursor: past the terminator, or at the end. */
  function AfterLine(s: seq<char>, p: nat): (q: nat)
    requires p <= |s|
    ensures p <= q <= |s|
    ensures q > p || p == |s|
  {
    var e := LineEnd(s, p);
    if e < |s| then e + 1 else |s|
  }

  /** Where skipTillNext leaves the cursor as written: one before the position
    * after its last read, whether that read hit a stop character or found the
    * end of the input. */
  function SkipTarget(s: seq<char>, p: nat, stop: char, stopEndOfLine: bool): int
    requires p <= |s|
  {
    var e := StopIndex(s, p, stop, stopEndOfLine);
    (if e < |s| then e + 1 else |s|) - 1
  }

  /** Where skipTillNext evidently means to leave the cursor: on the stop
    * character, so that the next read returns it, or at the end of the input. */
  function SkipTargetIntended(s: seq<char>, p: nat, stop: char, stopEndOfLine: bool): (q: nat)
    requires p <= |s|
    ensures p <= q <= |s|
    ensures q < |s| ==> IsStop(s[q], stop, stopEndOfLine)
  {
    StopIndex(s, p, stop, stopEndOfLine)
  }

  /** As written, skipTillNext at the end of the input steps back onto the last
    * character: after the parser reads a '#' that ends the input, the cursor is
    * back on that same '#', so the comment is read again from the same place. */
  lemma SkipTargetAtEnd(s: seq<char>, stop: char)
    requires |s| >= 1 && s[|s| - 1] == '#'
    ensures SkipTarget(s, |s|, stop, true) == |s| - 1
    ensures SkipTargetIntended(s, |s|, stop, true) == |s|
  {
  }

  /** The intended skip agrees with the written one whenever a stop character
    * is found, and never moves the cursor backwards. */
  lemma SkipTargetsAgreeOnStop(s: seq<char>, p: nat, stop: char, stopEndOfLine: bool)
    requires p <= |s|
    ensures StopIndex(s, p, stop, stopEndOfLine) < |s| ==>
      SkipTarget(s, p, stop, stopEndOfLine) == SkipTargetIntended(s, p, stop, stopEndOfLine)
    ensures SkipTargetIntended(s, p, stop, stopEndOfLine) >= p
  {
  }

  class CharArray {
    const data: array<char>
    const length: int
    var position: int
    var mark: int

    ghost predicate Valid()
      reads this
    {
      length == data.Length && 0 <= position <= length && 0 <= mark <= length
    }

    constructor (a: array<char>)
      ensures Valid() && data == a && position == 0 && mark == 0
    {
      data := a;
      length := a.Length;
      position := 0;
      mark := 0;
    }

    /** reset: back to the mark. */
    method Reset()
      requires Valid()
      modifies this
      ensures Valid() && position == old(mark) && mark == old(mark)
    {
      position := mark;
    }

    /** mark: remember the position. */
    method Mark()
      requires Valid()
      modifies this
      ensures Valid() && mark == old(position) && position == old(position)
    {
      mark := position;
    }

    /** position(int): move the cursor to a position inside the array. */
    method SetPosition(p: int)
      requires Valid() && 0 <= p <= length
      modifies this
      ensures Valid() && position == p && mark == old(mark)
    {
      position := p;
    }

    /** addPosition: move the cursor by n, staying inside the array. */
    method AddPosition(n: int)
      requires Valid() && 0 <= position + n <= length
      modifies this
      ensures Valid() && position == old(position) + n && mark == old(mark)
    {
      position := position + n;
    }

    /** available: the number of characters left to read. */
    function Available(): (n: int)
      reads this
      requires Valid()
      ensures 0 <= n <= length && (n == 0 <==> position == length)
    {
      length - position
    }

    /** read(): the next character, or -1 at the end, where nothing moves. */
    method Read() returns (r: int)
      requires Valid()
      modifies this
      ensures Valid() && mark == old(mark)
      ensures old(position) == length ==> r == -1 && position == old(position)
      ensures old(position) < length ==> r == data[old(position)] as int && position == old(position) + 1
      ensures r >= -1
    {
      if length == position {
        return -1;
      }
      r := data[position] as int;
      position := position + 1;
    }

    /** read(c, offset, length): copies min(len, available) characters into c
      * from offset and advances past them; nothing happens at the end. The
      * bounds are those System.arraycopy demands. */
    method ReadInto(c: array<char>, offset: int, len: int)
      requires Valid() && c != data
      requires 0 <= offset && 0 <= len
      requires position < length ==> offset + Min(len, length - position) <= c.Length
      modifies this, c
      ensures Valid() && mark == old(mark)
      ensures old(position) == length ==> position == old(position) && c[..] == old(c[..])
      ensures old(position) < length ==> var n := Min(len, length - old(position));
        position == old(position) + n
        && c[..] == old(c[..offset]) + data[old(position)..old(position) + n] + old(c[offset + n..])
    {
      if length == position {
        return;
      }
      var n := Min(len, length - position);
      CopyWindow(c, offset, n);
      position := position + n;
    }

    /** The System.arraycopy inside read(c, offset, length): the n characters
      * from the cursor land in c from offset; the cursor does not move. */
    method CopyWindow(c: array<char>, offset: nat, n: nat)
      requires Valid() && c != data
      requires position + n <= length && offset + n <= c.Length
      modifies c
      ensures c[..] == old(c[..offset]) + data[position..position + n] + old(c[offset + n..])
    {
      ghost var before := c[..];
      var i := 0;
      while i < n
        invariant 0 <= i <= n
        invariant c.Length == |before|
        invariant forall j :: 0 <= j < c.Length ==>
          c[j] == if offset <= j < offset + i then data[position + j - offset] else before[j]
      {
        c[offset + i] := data[position + i];
        i := i + 1;
      }
      Spliced(c[..], before, data[position..position + n], offset);
    }

    /** read(int length, int offset): a new buffer of length + offset
      * characters, the read characters placed from offset, the rest '\0'. */
    method ReadChars(len: int, offset: int) returns (buffer: array<char>)
      requires Valid() && 0 <= len && 0 <= offset
      modifies this
      ensures Valid() && mark == old(mark) && fresh(buffer)
      ensures var n := if old(position) == length then 0 else Min(len, length - old(position));
        position == old(position) + n && buffer.Length == len + offset
        && buffer[..] == Zeros(offset) + data[old(position)..old(position) + n] + Zeros(len - n)
    {
      buffer := NewBuffer(len + offset);
      ghost var before := buffer[..];
      if position == length {
        ReadInto(buffer, offset, len);
        FillWindow(before, buffer[..], len + offset, offset, [], len);
      } else {
        ghost var n := Min(len, length - position);
        ghost var body := data[position..position + n];
        ReadInto(buffer, offset, len);
        FillWindow(before, buffer[..], len + offset, offset, body, len - n);
      }
    }

    /** read(nb) on a buffer known to hold nb more characters: exactly those. */
    method ReadExactly(nb: nat) returns (s: string)
      requires Valid() && position + nb <= length
      modifies this
      ensures Valid() && mark == old(mark)
      ensures position == old(position) + nb && s == data[old(position)..position]
    {
      var chars := ReadChars(nb, 0);
      s := chars[..];
      assert s == [] + data[old(position)..position] + [];
    }

    /** readLine: the characters up to the next '\n' or '\r', consuming that
      * one terminator; without one, the rest of the input. The mark is left
      * at the start of the line. */
    method ReadLine() returns (line: string)
      requires Valid()
      modifies this
      ensures Valid() && mark == old(position)
      ensures line == data[old(position)..LineEnd(data[..], old(position))]
      ensures position == AfterLine(data[..], old(position))
    {
      var nb := 0;
      Mark();
      while true
        invariant Valid() && mark == old(position) && position == mark + nb
        invariant forall i :: mark <= i < position ==> !IsLineTerminator(data[i])
        decreases length - position
      {
        if Available() <= 0 {
          LineEndIs(data[..], mark, position);
          Reset();
          line := ReadExactly(nb);
          return;
        }
        var c := Read();
        if c == '\n' as int || c == '\r' as int {
          LineEndIs(data[..], mark, mark + nb);
          Reset();
          line := ReadExactly(nb);
          var _ := Read();
          return;
        }
        nb := nb + 1;
      }
    }

    /** skipLine: moves past the next '\n' or '\r', or to the end. */
    method SkipLine()
      requires Valid()
      modifies this
      ensures Valid() && mark == old(position)
      ensures position == AfterLine(data[..], old(position))
    {
      Mark();
      while true
        invariant Valid() && mark == old(position) && mark <= position
        invariant forall i :: mark <= i < position ==> !IsLineTerminator(data[i])
        decreases length - position
      {
        if Available() <= 0 {
          return;
        }
        var c := Read();
        if c == '\n' as int || c == '\r' as int {
          return;
        }
      }
    }

    /** readQuoted: the characters up to the next double quote (or the end),
      * wrapped in quotes when keepQuotes is set; the closing quote is consumed. */
    method ReadQuoted(keepQuotes: bool) returns (s: string)
      requires Valid()
      modifies this
      ensures Valid() && mark == old(position)
      ensures var q := QuoteEnd(data[..], old(position));
        s == (if keepQuotes then "\"" + data[old(position)..q] + "\"" else data[old(position)..q])
        && position == (if q < length then q + 1 else length)
    {
      var nb := 0;
      Mark();
      var letter := Read();
      while letter > -1 && letter != '"' as int
        invariant Valid() && mark == old(position)
        invariant letter == -1 ==> position == length && position == mark + nb
        invariant letter > -1 ==> position == mark + nb + 1 && letter == data[mark + nb] as int
        invariant forall i :: mark <= i < mark + nb ==> data[i] != '"'
        decreases length - position, letter + 1
      {
        nb := nb + 1;
        letter := Read();
      }
      QuoteEndIs(data[..], mark, mark + nb);
      Reset();
      s := ReadEnclosed(nb, keepQuotes);
      var _ := Read();
    }

    /** The copy readQuoted makes of the nb characters it scanned: a char
      * array of nb characters, or of nb + 2 with the quotes at both ends. */
    method ReadEnclosed(nb: nat, keepQuotes: bool) returns (s: string)
      requires Valid() && position + nb <= length
      modifies this
      ensures Valid() && mark == old(mark) && position == old(position) + nb
      ensures var body := data[old(position)..old(position) + nb];
        s == if keepQuotes then "\"" + body + "\"" else body
    {
      ghost var body := data[position..position + nb];
      if keepQuotes {
        var chars := new char[nb + 2](_ => '\0');
        ReadInto(chars, 1, nb);
        assert chars[1..nb + 1] == body;
        chars[0] := '"';
        chars[nb + 1] := '"';
        assert chars[1..nb + 1] == body;
        s := chars[..];
        assert s == [s[0]] + s[1..nb + 1] + [s[nb + 1]];
      } else {
        var chars := new char[nb](_ => '\0');
        ReadInto(chars, 0, nb);
        s := chars[..];
      }
    }

    /** readStringOrNumber: firstChar followed by the longest run of token
      * characters; the cursor stops just after that run. */
    method ReadStringOrNumber(firstChar: char) returns (s: string)
      requires Valid()
      modifies this
      ensures Valid() && mark == old(position)
      ensures var e := TokenEnd(data[..], old(position));
        s == [firstChar] + data[old(position)..e] && position == e
    {
      Mark();
      var nb := ScanToken();
      Reset();
      s := ReadPrefixed(firstChar, nb);
    }

    /** The scanning loop of readStringOrNumber: reads from the mark until a
      * whitespace or non-token character or the end, counting the token
      * characters read. */
    method ScanToken() returns (nb: nat)
      requires Valid() && mark == position
      modifies this
      ensures Valid() && mark == old(mark)
      ensures mark + nb <= length && TokenEnd(data[..], mark) == mark + nb
    {
      nb := 0;
      var letter := Read();
      while letter > -1
        invariant Valid() && mark == old(mark)
        invariant letter == -1 ==> position == length && position == mark + nb
        invariant letter > -1 ==> position == mark + nb + 1 && letter == data[mark + nb] as int
        invariant forall i :: mark <= i < mark + nb ==> IsTokenChar(data[i]) && !IsWhitespace(data[i])
        decreases length - position, letter + 1
      {
        var c := data[mark + nb];
        if IsWhitespace(c) {
          break;
        }
        if IsTokenChar(c) {
          nb := nb + 1;
        } else {
          break;
        }
        letter := Read();
      }
      TokenEndIs(data[..], mark, mark + nb);
    }

    /** The copy readStringOrNumber makes of the nb characters it scanned:
      * read(nb, 1), with firstChar in the first place. */
    method ReadPrefixed(firstChar: char, nb: nat) returns (s: string)
      requires Valid() && position + nb <= length
      modifies this
      ensures Valid() && mark == old(mark) && position == old(position) + nb
      ensures s == [firstChar] + data[old(position)..old(position) + nb]
    {
      ghost var body := data[position..position + nb];
      var chars := ReadChars(nb, 1);
      assert chars[1..] == body;
      chars[0] := firstChar;
      assert chars[1..] == body;
      s := chars[..];
      assert s == [s[0]] + s[1..];
    }

    /** skipTillNext as written: reads up to and including the first stop
      * character (or '\n' when stopEndOfLine), then steps back one, even when
      * it stopped at the end of the input. An empty array would leave the
      * cursor at -1, outside the array. */
    method SkipTillNext(stop: char, stopEndOfLine: bool)
      requires Valid() && length > 0
      modifies this
      ensures Valid() && mark == old(mark)
      ensures position == SkipTarget(data[..], old(position), stop, stopEndOfLine)
    {
      var letter := Read();
      while letter > -1
        invariant Valid() && mark == old(mark) && old(position) <= position
        invariant letter == -1 ==> position == length
        invariant letter > -1 ==> position >= old(position) + 1 && letter == data[position - 1] as int
        invariant forall i :: old(position) <= i < position - 1 ==> !IsStop(data[i], stop, stopEndOfLine)
        invariant letter == -1 ==> forall i :: old(position) <= i < position ==> !IsStop(data[i], stop, stopEndOfLine)
        decreases length - position, letter + 1
      {
        if stopEndOfLine && letter == '\n' as int {
          break;
        }
        if letter == stop as int {
          break;
        }
        letter := Read();
      }
      assert StopIndex(data[..], old(position), stop, stopEndOfLine) == (if letter == -1 then length else position - 1);
      AddPosition(-1);
    }

    /** skipTillNext as evidently intended: the same scan, but the step back
      * is taken only when a stop character was read, so that the end of the
      * input is never read twice. */
    method SkipTillNextIntended(stop: char, stopEndOfLine: bool)
      requires Valid()
      modifies this
      ensures Valid() && mark == old(mark)
      ensures position == SkipTargetIntended(data[..], old(position), stop, stopEndOfLine)
    {
      var letter := Read();
      while letter > -1
        invariant Valid() && mark == old(mark) && old(position) <= position
        invariant letter == -1 ==> position == length
        invariant letter > -1 ==> position >= old(position) + 1 && letter == data[position - 1] as int
        invariant forall i :: old(position) <= i < position - 1 ==> !IsStop(data[i], stop, stopEndOfLine)
        invariant letter == -1 ==> forall i :: old(position) <= i < position ==> !IsStop(data[i], stop, stopEndOfLine)
        decreases length - position, letter + 1
      {
        if stopEndOfLine && letter == '\n' as int {
          break;
        }
        if letter == stop as int {
          break;
        }
        letter := Read();
      }
      if letter > -1 {
        AddPosition(-1);
      }
    }

    /** readEndOfLine: skipTillNext('\n', true). */
    method ReadEndOfLine()
      requires Valid() && length > 0
      modifies this
      ensures Valid() && mark == old(mark)
      ensures position == SkipTarget(data[..], old(position), '\n', true)
    {
      SkipTillNext('\n', true);
    }
  }

  function Min(a: int, b: int): int { if a <= b then a else b }

  /** A run of n '\0' characters, the default content of a new char array. */
  function Zeros(n: int): (z: seq<char>)
    ensures |z| == (if n < 0 then 0 else n)
  {
    if n <= 0 then [] else seq(n, _ => '\0')
  }
}
