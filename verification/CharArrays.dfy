/** src/char_array.c: a growable string whose buffer is at first borrowed or owned.

    `length` is C's `buffer_length`, which counts the terminating zero; `buffer.Length` is
    `buffer_capacity`.  Allocations succeed in this model.
 */
module CharArrays {
  import opened Numbers
  import opened Wrappers

  class CharArray {
    var buffer: array<char>
    var length: nat
    var ownsBuffer: bool

    ghost predicate Valid()
      reads this, buffer
    {
      && length <= buffer.Length && (length > 0 ==> buffer[length - 1] == '\0')
      && (!ownsBuffer ==> 1 <= buffer.Length)
    }

    /** The string, without its terminating zero. */
    ghost function Content(): string
      reads this, buffer
      requires Valid()
    {
      if length == 0 then "" else buffer[..length - 1]
    }

    constructor (capacity: nat)
      ensures Valid() && Content() == "" && ownsBuffer && fresh(buffer) && buffer.Length == capacity
    {
      buffer, length, ownsBuffer := new char[capacity], 0, true;
    }

    /** A caller's buffer, as `rcutils_char_array_t` permits: it is written to but never replaced
        in place. */
    constructor Borrow(borrowed: array<char>)
      requires 1 <= borrowed.Length
      ensures Valid() && Content() == "" && !ownsBuffer && buffer == borrowed
    {
      buffer, length, ownsBuffer := borrowed, 0, false;
    }

    /** `rcutils_char_array_resize`.  A borrowed buffer is left alone; the copy of it ends in a zero. */
    method Resize(newSize: nat) returns (ret: Ret)
      requires Valid()
      modifies this
      ensures ret == if newSize == 0 then InvalidArgument else Ok
      ensures newSize == 0 || newSize == old(buffer.Length) ==> unchanged(this)
      ensures newSize != 0 ==> buffer.Length == newSize && length == Min(newSize, old(length))
      ensures newSize != 0 && newSize != old(buffer.Length) ==> fresh(buffer) && ownsBuffer
      ensures forall k :: 0 <= k < Min(newSize, old(buffer.Length)) - 1 ==> buffer[k] == old(buffer[k])
      ensures (newSize != 0 && buffer != old(buffer) && old(buffer.Length) > 0) ==>
                var last := Min(newSize, old(buffer.Length)) - 1;
                buffer[last] == if old(ownsBuffer) then old(buffer[last]) else '\0'
      ensures newSize > old(buffer.Length) ==> Valid() && Content() == old(Content())
    {
      if newSize == 0 {
        return InvalidArgument;
      }
      ret := Ok;
      if newSize == buffer.Length {
        return;
      }
      var n := Min(newSize, buffer.Length);
      var newBuffer := new char[newSize];
      forall k | 0 <= k < n {
        newBuffer[k] := buffer[k];
      }
      if !ownsBuffer {
        newBuffer[n - 1] := '\0';
      }
      buffer, length, ownsBuffer := newBuffer, Min(newSize, length), true;
    }

    /** `rcutils_char_array_expand_as_needed`: by half of the old capacity at least. */
    method ExpandAsNeeded(newSize: nat)
      requires Valid()
      modifies this
      ensures Valid() && Content() == old(Content()) && length == old(length)
      ensures newSize <= buffer.Length
      ensures newSize <= old(buffer.Length) ==> unchanged(this)
      ensures newSize > old(buffer.Length) ==> fresh(buffer) && ownsBuffer
      ensures newSize > old(buffer.Length) ==> buffer.Length == Max(newSize, old(buffer.Length + buffer.Length / 2))
    {
      if newSize <= buffer.Length {
        return;
      }
      var ret := Resize(Max(newSize, buffer.Length + buffer.Length / 2));
    }

    /** `rcutils_char_array_strncat` with `n` the length of `src`. */
    method StrNCat(src: string)
      requires Valid()
      modifies this, buffer
      ensures Valid() && Content() == old(Content()) + src
      ensures buffer == old(buffer) || (fresh(buffer) && ownsBuffer && unchanged(old(buffer)))
      ensures buffer != old(buffer) ==> |old(Content())| + |src| + 1 > old(buffer.Length)
    {
      var current := if length == 0 then 0 else length - 1;
      var newLength := current + |src| + 1;
      ExpandAsNeeded(newLength);
      assert buffer[..current] == old(Content());
      forall k | 0 <= k < |src| {
        buffer[current + k] := src[k];
      }
      buffer[newLength - 1] := '\0';
      length := newLength;
    }

    /** `rcutils_char_array_strcpy`. */
    method StrCpy(src: string)
      requires Valid()
      modifies this, buffer
      ensures Valid() && Content() == src
      ensures buffer == old(buffer) || (fresh(buffer) && ownsBuffer && unchanged(old(buffer)))
    {
      ExpandAsNeeded(|src| + 1);
      forall k | 0 <= k < |src| {
        buffer[k] := src[k];
      }
      buffer[|src|] := '\0';
      length := |src| + 1;
    }
  }
}
