/**
 * The growable text buffer of jansson/strbuffer.c. Sizes are of a fixed-width type, so every sum and
 * product in here is proved not to wrap around.
 */
module StrBuffer {
  import opened Basics

  /** size_t, 32 bits wide; any width has the same proofs. */
  newtype size = x: int | 0 <= x <= 0xFFFF_FFFF

  const MIN_SIZE: size := 16
  const FACTOR: size := 2
  const SIZE_MAX: size := 0xFFFF_FFFF

  function Max(a: size, b: size): size { if a > b then a else b }

  class StrBuffer {
    var value: array<byte>
    var length: size
    var size: size
    /** The greatest length so far, and the bytes that growing has copied. */
    ghost var peak: int
    ghost var copied: int

    ghost predicate Valid()
      reads this, value
    {
      && value.Length == size as int && length < size && value[length] == 0
      && MIN_SIZE <= size && size as int <= (if 2 * peak > 16 then 2 * peak else 16)
      && 0 <= length as int <= peak && 0 <= copied < size as int
    }

    /** The text in the buffer. */
    ghost function Text(): bytes
      reads this, value
      requires Valid()
    {
      value[..length]
    }

    /** strbuffer_init. */
    constructor ()
      ensures Valid() && Text() == [] && fresh(value) && peak == 0
    {
      value := new byte[MIN_SIZE](_ => 0);
      length := 0;
      size := MIN_SIZE;
      peak := 0;
      copied := 0;
    }

    /** strbuffer_clear: the capacity stays. */
    method Clear()
      requires Valid()
      modifies `length, value
      ensures Valid() && Text() == []
    {
      length := 0;
      value[0] := 0;
    }

    /** The growth in strbuffer_append_bytes; the allocator may fail. */
    method Grow(amount: size, memory: bool) returns (ok: bool)
      requires Valid() && length as int + amount as int >= size as int
      modifies `value, `size, `copied, `peak
      ensures value.Length == size as int && length < size && value[..length] == old(value[..length])
      ensures !ok ==> Valid() && value == old(value) && size == old(size) && peak == old(peak) && copied == old(copied)
      ensures !ok <==>
        !memory || 2 * old(size) as int > SIZE_MAX as int || length as int + amount as int >= SIZE_MAX as int
      ensures ok ==>
        size as int == if 2 * old(size) as int > length as int + amount as int then 2 * old(size) as int
                       else length as int + amount as int + 1
      ensures ok ==>
        && fresh(value) && length as int + (amount as int) < size as int && MIN_SIZE <= size
        && size as int <= 2 * (length as int + amount as int) && 0 <= copied < size as int
        && peak == if old(peak) > length as int + amount as int then old(peak) else length as int + amount as int
    {
      if size > SIZE_MAX / FACTOR || amount > SIZE_MAX - 1 || length > SIZE_MAX - 1 - amount {
        return false;
      }
      var newSize := Max(size * FACTOR, length + amount + 1);
      if !memory {
        return false;
      }
      var newValue := new byte[newSize];
      forall i | 0 <= i < length as int {
        newValue[i] := value[i];
      }
      copied := copied + length as int;
      value := newValue;
      size := newSize;
      peak := if peak > length as int + amount as int then peak else length as int + amount as int;
      ok := true;
    }

    /** strbuffer_append_bytes: it appends, or, when the sizes or the memory run out, changes nothing. */
    method AppendBytes(data: bytes, memory: bool) returns (ok: bool)
      requires Valid() && |data| <= SIZE_MAX as int
      modifies this, value
      ensures Valid() && (value == old(value) || fresh(value))
      ensures ok ==> Text() == old(Text()) + data
      ensures !ok ==> Text() == old(Text()) && value == old(value) && size == old(size) && copied == old(copied)
      ensures !ok <==> (
        && old(length) as int + |data| >= old(size) as int
        && (!memory || 2 * old(size) as int > SIZE_MAX as int || old(length) as int + |data| >= SIZE_MAX as int))
    {
      var amount := |data| as size;
      if amount >= size - length {
        ok := Grow(amount, memory);
        if !ok {
          return;
        }
      } else {
        peak := if peak > length as int + |data| then peak else length as int + |data|;
      }
      ghost var before := value[..length];
      forall i | 0 <= i < |data| {
        value[length as int + i] := data[i];
      }
      length := length + amount;
      value[length] := 0;
      assert value[..length] == before + data;
      ok := true;
    }

    /** strbuffer_pop: the last byte, or NUL when there is none. */
    method Pop() returns (c: byte)
      requires Valid()
      modifies `length, value
      ensures Valid()
      ensures old(Text()) == [] ==> c == 0 && Text() == []
      ensures old(Text()) != [] ==> Text() + [c] == old(Text())
    {
      if length > 0 {
        length := length - 1;
        c := value[length];
        value[length] := 0;
      } else {
        c := 0;
      }
    }
  }
}
