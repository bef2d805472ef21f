/** The pushback byte stream of jansson/load.c, reading from a NUL-free C string. */
module Stream {
  import opened Basics
  import Utf8
  import Utf8Code
  import P = ParseSpec

  const STATE_OK: int := 0
  const STATE_EOF: int := -1
  const STATE_ERROR: int := -2

  /** What the char conversion makes of the code string_get gives at the end of the input. */
  const PADDING: byte := 0xFF

  /** The number of newlines in s. */
  function Newlines(s: bytes): nat {
    if s == [] then 0 else Newlines(s[..|s| - 1]) + (if s[|s| - 1] == LF then 1 else 0)
  }

  /** The number of characters (UTF-8 leading bytes) since the last newline of s. */
  function Column(s: bytes): nat {
    if s == [] then 0
    else if s[|s| - 1] == LF then 0
    else Column(s[..|s| - 1]) + (if Utf8.CheckFirst(s[|s| - 1]) != 0 then 1 else 0)
  }

  lemma OneMore(s: bytes, n: nat)
    requires n < |s|
    ensures Newlines(s[..n + 1]) == Newlines(s[..n]) + (if s[n] == LF then 1 else 0)
    ensures Column(s[..n + 1]) ==
      if s[n] == LF then 0 else Column(s[..n]) + (if Utf8.CheckFirst(s[n]) != 0 then 1 else 0)
  {
    var t := s[..n + 1];
    assert t[..|t| - 1] == s[..n] && t[|t| - 1] == s[n];
  }

  /** Byte i of a well-formed character: never a code for end of input or error. */
  predicate InCharacter(s: bytes, i: nat)
    requires i < |s|
  {
    && SignedChar(s[i]) != STATE_EOF && SignedChar(s[i]) != STATE_ERROR
    && (i > 0 ==> Utf8.CheckFirst(s[i]) == 0 && s[i] >= 0x80 && s[0] >= 0x80)
    && (i == 0 ==> Utf8.CheckFirst(s[0]) != 0)
  }

  lemma {:induction false} DataIsNoCode(s: bytes, i: nat)
    requires s != [] && Utf8.FirstChar(s).Some? && i < Utf8.FirstChar(s).value.0
    ensures InCharacter(s, i)
  {
    var n := Utf8.FirstChar(s).value.0;
    if n > 1 {
      Utf8.CheckFullByByte(s[..n]);
      assert i > 0 ==> Utf8.Trail(s[..n][i]);
    }
  }

  lemma ByLeadingByte(s: bytes)
    requires s != []
    ensures Utf8.CheckFirst(s[0]) == 0 ==> Utf8.FirstChar(s) == None
    ensures s[0] < 0x80 ==> Utf8.CheckFirst(s[0]) == 1 && Utf8.FirstChar(s) == Some((1, s[0]))
    ensures s[0] >= 0x80 ==> Utf8.CheckFirst(s[0]) == 0 || 2 <= Utf8.CheckFirst(s[0]) <= 4
  {
  }

  /** What n calls of string_get leave in a buffer of chars. */
  function Fetched(s: bytes, n: nat): (r: bytes)
    ensures |r| == n && forall k :: 0 <= k < n ==> r[k] == if k < |s| then s[k] else PADDING
  {
    seq(n, k => if 0 <= k < |s| then s[k] else PADDING)
  }

  /** Padding never passes for a part of a character. */
  lemma CheckOfFetched(s: bytes, count: nat)
    requires s != [] && 2 <= count <= 4 && Utf8.CheckFirst(s[0]) == count
    ensures match Utf8.CheckFull(Fetched(s, count))
            case None => Utf8.FirstChar(s) == None
            case Some(v) => count <= |s| && Utf8.FirstChar(s) == Some((count, v))
  {
    var got := Fetched(s, count);
    if |s| < count {
      Utf8.CheckFullByByte(got);
      assert !Utf8.Trail(got[|s|]);
    } else {
      assert s[..count] == got;
    }
  }

  /** stream_t. */
  class Stream {
    const data: bytes
    var pos: nat
    const buffer: array<byte>
    var bufferPos: nat
    var state: int
    var line: int
    var column: int
    var lastColumn: int
    var position: nat
    /** Where the character in the buffer starts in data. */
    ghost var start: nat
    /** The last call read a byte, which may be pushed back. */
    ghost var unread: bool

    /** The bytes that can be read from data: up to its end, or to the first ill-formed character. */
    ghost function Text(): bytes { data[..P.ReadableLength(data)] }

    /** The bytes still to be read. */
    ghost function Rest(): bytes
      reads this
      requires position <= |Text()|
    {
      Text()[position..]
    }

    ghost predicate Bad() { P.ReadableLength(data) < |data| }

    ghost function Ending(): int { if Bad() then STATE_ERROR else STATE_EOF }

    ghost predicate Valid()
      reads this, buffer
    {
      && buffer.Length == 5
      && NulFree(data)
      && position <= P.ReadableLength(data)
      && Counted()
      && (state == STATE_OK || (state == Ending() && position == P.ReadableLength(data)))
      && (state == STATE_OK ==> Buffered() && Split() && (unread ==> Undoable()))
    }

    /** The counters tell how much was read: bytes, lines, and characters in this line. */
    ghost predicate Counted()
      reads `position, `line, `column
      requires position <= |data|
    {
      line == 1 + Newlines(data[..position]) && column == Column(data[..position])
    }

    /** The buffer holds the character of data from start to pos, and bufferPos is where reading goes on. */
    ghost predicate Buffered()
      reads this, buffer
      requires buffer.Length == 5
    {
      && start <= position <= pos <= |data| && pos - start <= 4
      && bufferPos == position - start
      && (forall k :: 0 <= k < pos - start ==> buffer[k] == data[start + k])
      && buffer[pos - start] == 0
      && (forall k :: 0 <= k < pos - start ==> InCharacter(data[start..], k))
    }

    /** Whole characters were fetched, and whole characters remain. */
    ghost predicate Split()
      reads `pos
      requires pos <= |data|
    {
      P.ReadableLength(data) == pos + P.ReadableLength(data[pos..])
    }

    ghost predicate Undoable()
      reads `position, `start, `lastColumn
      requires position <= |data|
    {
      start < position && (data[position - 1] == LF ==> lastColumn == Column(data[..position - 1]))
    }

    constructor (data: bytes)
      requires NulFree(data)
      ensures Valid() && fresh(buffer) && this.data == data
      ensures state == STATE_OK && position == 0 && Rest() == Text()
    {
      this.data := data;
      pos := 0;
      buffer := new byte[5](_ => 0);
      bufferPos := 0;
      state := STATE_OK;
      line := 1;
      column := 0;
      lastColumn := 0;
      position := 0;
      start := 0;
      unread := false;
      new;
      assert data[0..] == data;
    }

    /** string_get: one byte, or -1 at the end, which it does not move past. */
    method StringGet() returns (c: int)
      requires pos <= |data|
      modifies this`pos
      ensures old(pos) < |data| ==> c == data[old(pos)] && pos == old(pos) + 1
      ensures old(pos) == |data| ==> c == -1 && pos == old(pos)
    {
      if pos == |data| {
        return -1;
      }
      c := data[pos];
      pos := pos + 1;
    }

    /** The loop of stream_get that reads the rest of a multi-byte sequence. */
    method FetchTrail(count: nat)
      requires buffer.Length == 5 && 2 <= count <= 4 && start + 1 == pos <= |data| && buffer[0] == data[start]
      modifies this`pos, buffer
      ensures pos == if start + count <= |data| then start + count else |data|
      ensures buffer[..count] == Fetched(data[start..], count)
    {
      var i := 1;
      while i < count
        invariant 1 <= i <= count
        invariant pos == if start + i <= |data| then start + i else |data|
        invariant forall k :: 0 <= k < i ==> buffer[k] == if start + k < |data| then data[start + k] else PADDING
      {
        var d := StringGet();
        buffer[i] := if d == -1 then PADDING else d;
        i := i + 1;
      }
    }

    /** The part of stream_get that reads the next character into the buffer. */
    method Fill() returns (ok: bool)
      requires buffer.Length == 5 && NulFree(data) && state == STATE_OK && position == pos <= |data|
      modifies this`pos, this`bufferPos, this`state, this`start, this`unread, buffer
      ensures ok <==> old(pos) < |data| && Utf8.FirstChar(data[old(pos)..]).Some?
      ensures ok ==> state == STATE_OK && start == position < pos && !unread && Buffered()
      ensures ok ==> pos == old(pos) + Utf8.FirstChar(data[old(pos)..]).value.0
      ensures !ok ==> state == if old(pos) < |data| then STATE_ERROR else STATE_EOF
    {
      hide Utf8.CheckFull, Utf8.FirstChar, InCharacter, NulFree;
      ghost var rest := data[pos..];
      var c := StringGet();
      if c == -1 {
        state := STATE_EOF;
        return false;
      }
      buffer[0] := c;
      bufferPos := 0;
      start := position;
      unread := false;
      var count := Utf8.CheckFirst(c);
      ByLeadingByte(rest);
      if 0x80 <= c {
        if count == 0 {
          state := STATE_ERROR;
          return false;
        }
        FetchTrail(count);
        assert buffer[..count][0] == rest[0];
        var full := Utf8Code.CheckFullAt(buffer[..count] + [0], 0, count);
        assert (buffer[..count] + [0])[0..count] == Fetched(rest, count);
        CheckOfFetched(rest, count);
        if full == None {
          state := STATE_ERROR;
          return false;
        }
        assert forall k :: 0 <= k < count ==> buffer[k] == buffer[..count][k];
        buffer[count] := 0;
      } else {
        buffer[1] := 0;
      }
      forall k | 0 <= k < count ensures InCharacter(rest, k) {
        DataIsNoCode(rest, k);
      }
      return true;
    }

    /** What the buffer holds at bufferPos: the next byte of the character, or the terminating NUL. */
    lemma BufferMatches()
      requires buffer.Length == 5 && Buffered() && NulFree(data)
      ensures bufferPos < 5 && (buffer[bufferPos] == 0 <==> position == pos)
      ensures position < pos ==> buffer[bufferPos] == data[position] && InCharacter(data[start..], bufferPos)
    {
      hide InCharacter;
      if position < pos {
        assert buffer[bufferPos] == data[start + bufferPos];
      }
    }

    /** The end of stream_get: the next byte of the character in the buffer, counted. */
    method Take() returns (c: int)
      requires buffer.Length == 5 && Buffered() && NulFree(data) && position < pos && Counted()
      modifies this`position, this`bufferPos, this`line, this`column, this`lastColumn, this`unread
      ensures Buffered() && Counted() && unread && Undoable()
      ensures position == old(position) + 1 && c == SignedChar(data[old(position)]) && c != STATE_EOF
        && c != STATE_ERROR
    {
      BufferMatches();
      hide NulFree, Newlines, Column;
      var u := buffer[bufferPos];
      assert InCharacter(data[start..], bufferPos) && data[start..][bufferPos] == u;
      hide InCharacter;
      c := SignedChar(u);
      bufferPos := bufferPos + 1;
      OneMore(data, position);
      position := position + 1;
      if c == LF {
        line := line + 1;
        lastColumn := column;
        column := 0;
      } else if Utf8.CheckFirst(u) != 0 {
        column := column + 1;
      }
      unread := true;
    }

    /** Where the text that can be read ends, seen from the character that comes next. */
    lemma SplitAtNext()
      requires pos <= |data| && Split()
      ensures pos == P.ReadableLength(data) && Ending() == (if pos < |data| then STATE_ERROR else STATE_EOF)
        <==> pos == |data| || Utf8.FirstChar(data[pos..]) == None
      ensures pos < |data| && Utf8.FirstChar(data[pos..]).Some? ==>
        var n := Utf8.FirstChar(data[pos..]).value.0;
        P.ReadableLength(data) == pos + n + P.ReadableLength(data[pos + n..])
    {
      hide Utf8.FirstChar;
      if pos < |data| && Utf8.FirstChar(data[pos..]).Some? {
        var n := Utf8.FirstChar(data[pos..]).value.0;
        assert data[pos..][n..] == data[pos + n..];
      }
    }

    /** stream_get: a byte as a signed char, or the code for the end of input or for ill-formed text. */
    method Get() returns (c: int)
      requires Valid()
      modifies this, buffer
      ensures Valid()
      ensures old(position) < |Text()| ==>
        && position == old(position) + 1 && c == SignedChar(data[old(position)])
        && c != STATE_EOF && c != STATE_ERROR && state == STATE_OK && unread
      ensures old(position) == |Text()| ==> position == old(position) && c == Ending()
    {
      hide P.ReadableLength, Counted, Undoable, InCharacter, NulFree, Utf8.FirstChar;
      if state != STATE_OK {
        return state;
      }
      BufferMatches();
      if buffer[bufferPos] == 0 {
        SplitAtNext();
        var ok := Fill();
        if !ok {
          return state;
        }
      }
      assert position < P.ReadableLength(data);
      c := Take();
    }

    /** stream_unget: the byte the last Get returned is there to be read again. */
    method Unget(c: int)
      requires Valid()
      requires c != STATE_EOF && c != STATE_ERROR ==>
        state == STATE_OK && unread && c == SignedChar(data[position - 1])
      modifies this`position, this`line, this`column, this`bufferPos, this`unread
      ensures Valid()
      ensures c == STATE_EOF || c == STATE_ERROR ==> position == old(position)
      ensures c != STATE_EOF && c != STATE_ERROR ==> position == old(position) - 1 && state == STATE_OK
    {
      hide P.ReadableLength, Newlines, Column, InCharacter;
      if c == STATE_EOF || c == STATE_ERROR {
        return;
      }
      OneMore(data, position - 1);
      position := position - 1;
      if c == LF {
        line := line - 1;
        column := lastColumn;
      } else if Utf8.CheckFirst(data[position]) != 0 {
        column := column - 1;
      }
      assert bufferPos > 0;
      bufferPos := bufferPos - 1;
      unread := false;
      assert SignedChar(buffer[bufferPos]) == c;
    }

    /** One round of the loop of lex_save_cached: no line or column changes inside a character. */
    method SkipOne() returns (u: byte)
      requires buffer.Length == 5 && Buffered() && NulFree(data) && start < position < pos && Counted()
      modifies this`position, this`bufferPos
      ensures Buffered() && Counted()
      ensures position == old(position) + 1 && u == data[old(position)]
    {
      BufferMatches();
      hide NulFree, Newlines, Column;
      u := buffer[bufferPos];
      assert InCharacter(data[start..], bufferPos) && data[start..][bufferPos] == u;
      OneMore(data, position);
      bufferPos := bufferPos + 1;
      position := position + 1;
    }

    /** The rest of the character whose first byte was just read: what lex_save_cached saves and skips. */
    method SkipCached() returns (rest: bytes)
      requires Valid() && state == STATE_OK && start < position
      modifies this`position, this`bufferPos, this`unread
      ensures Valid() && state == STATE_OK && position == pos && rest == data[old(position)..pos]
    {
      hide P.ReadableLength, Counted, InCharacter, NulFree;
      rest := [];
      unread := false;
      BufferMatches();
      while buffer[bufferPos] != 0
        invariant Buffered() && Counted() && start < position && !unread
        invariant buffer[bufferPos] == 0 <==> position == pos
        invariant old(position) <= position && rest == data[old(position)..position]
        decreases pos - position
      {
        var u := SkipOne();
        rest := rest + [u];
        BufferMatches();
      }
    }
  }
}
