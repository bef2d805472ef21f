/** The loops of jansson/utf.c, each proved against the specification in module Utf8. */
module Utf8Code {
  import opened Basics
  import opened Utf8

  /** utf8_encode: the masks and shifts are written as division and remainder. */
  method Encode(codepoint: int, buffer: array<byte>) returns (ok: bool, size: nat)
    requires buffer.Length >= 4
    modifies buffer
    ensures ok <==> 0 <= codepoint <= 0x10FFFF
    ensures ok ==> size == |Encoding(codepoint)| && buffer[..size] == Encoding(codepoint)
    ensures ok ==> buffer[size..] == old(buffer[size..])
    ensures !ok ==> buffer[..] == old(buffer[..])
  {
    if codepoint < 0 {
      return false, 0;
    } else if codepoint < 0x80 {
      buffer[0] := codepoint;
      size := 1;
    } else if codepoint < 0x800 {
      buffer[0] := 0xC0 + codepoint / 0x40;
      buffer[1] := 0x80 + codepoint % 0x40;
      size := 2;
    } else if codepoint < 0x10000 {
      buffer[0] := 0xE0 + codepoint / 0x1000;
      buffer[1] := 0x80 + codepoint / 0x40 % 0x40;
      buffer[2] := 0x80 + codepoint % 0x40;
      size := 3;
    } else if codepoint <= 0x10FFFF {
      buffer[0] := 0xF0 + codepoint / 0x40000;
      buffer[1] := 0x80 + codepoint / 0x1000 % 0x40;
      buffer[2] := 0x80 + codepoint / 0x40 % 0x40;
      buffer[3] := 0x80 + codepoint % 0x40;
      size := 4;
    } else {
      return false, 0;
    }
    ok := true;
  }

  /**
   * utf8_check_full on the size bytes at pos. A C caller may ask past the end of its text:
   * the terminating NUL is no continuation byte, so the loop stops on it.
   */
  method CheckFullAt(text: bytes, pos: nat, size: int) returns (r: Option<int>)
    requires pos < |text| && text[|text| - 1] == 0
    requires pos < |text| - 1
    ensures r == if size >= 0 && pos + size <= |text| then CheckFull(text[pos..pos + size]) else None
  {
    var u := text[pos];
    var value: int := 0;
    if size == 2 {
      value := u % 0x20;
    } else if size == 3 {
      value := u % 0x10;
    } else if size == 4 {
      value := u % 0x08;
    } else {
      return None;
    }

    ghost var whole := if pos + size <= |text| then text[pos..pos + size] else [];
    ghost var total := if whole == [] then None else Continue(value, whole[1..]);
    var i := 1;
    while i < size
      invariant 1 <= i <= size && pos + i <= |text|
      invariant forall k :: pos < k < pos + i ==> text[k] != 0
      invariant whole != [] ==> Continue(value, whole[i..]) == total
    {
      u := text[pos + i];
      assert whole != [] ==> whole[i..][0] == u && whole[i..][1..] == whole[i + 1..];
      if u < 0x80 || u > 0xBF {
        return None;
      }
      value := value * 0x40 + u % 0x40;
      i := i + 1;
    }
    if value > 0x10FFFF {
      return None;
    } else if 0xD800 <= value <= 0xDFFF {
      return None;
    } else if (size == 2 && value < 0x80) || (size == 3 && value < 0x800) || (size == 4 && value < 0x10000) {
      return None;
    }
    return Some(value);
  }

  /** utf8_iterate on the C string s: the position after the character at pos, and its code point. */
  method Iterate(s: bytes, pos: nat) returns (r: Option<(nat, int)>)
    requires pos < |s| && NulFree(s)
    ensures r == match FirstChar(s[pos..]) case None => None case Some(c) => Some((pos + c.0, c.1))
  {
    var count := CheckFirst(s[pos]);
    if count <= 0 {
      return None;
    }
    var value: int;
    if count == 1 {
      value := s[pos];
    } else {
      ghost var rest := s[pos..];
      var full := CheckFullAt(s + [0], pos, count);
      assert count <= |rest| ==> rest[..count] == (s + [0])[pos..pos + count];
      if pos + count == |s| + 1 {
        NulIsNoContinuation(s, pos);
        assert (s + [0])[pos..pos + count] == (s + [0])[pos..];
      }
      if full == None {
        return None;
      }
      value := full.value;
    }
    assert s[pos..][0] == s[pos];
    return Some((pos + count, value));
  }

  lemma NulIsNoContinuation(s: bytes, pos: nat)
    requires pos < |s|
    ensures CheckFull((s + [0])[pos..]) == None
  {
    var t := (s + [0])[pos..];
    if 2 <= |t| <= 4 {
      CheckFullByByte(t);
      assert !Trail(t[|t| - 1]);
    }
  }

  /** utf8_check_string, given the length of the string. */
  method CheckString(s: bytes) returns (valid: bool)
    ensures valid == ValidUtf8(s)
  {
    var i := 0;
    while i < |s|
      invariant 0 <= i <= |s|
      invariant ValidUtf8(s) == ValidUtf8(s[i..])
    {
      var count := CheckFirst(s[i]);
      ghost var rest := s[i..];
      if count == 0 {
        return false;
      } else if count > 1 {
        if i + count > |s| {
          return false;
        }
        var full := CheckFullAt(s + [0], i, count);
        assert rest[..count] == (s + [0])[i..i + count];
        if full == None {
          return false;
        }
      }
      assert rest[count..] == s[i + count..];
      i := i + count;
    }
    valid := true;
  }
}
