/** A `MemoryStream` opened over an existing byte array, as `new MemoryStream(data, true)`:
    writable, fixed capacity, not expandable. */
module Streams {
  import opened Numerics
  import opened Wrappers

  /** `s` with the window `[pos, pos + |src|)` replaced by `src`. */
  function Overwrite(s: seq<Byte>, pos: nat, src: seq<Byte>): (r: seq<Byte>)
    requires pos + |src| <= |s|
    ensures |r| == |s|
    ensures forall k :: pos <= k < pos + |src| ==> r[k] == src[k - pos]
    ensures forall k :: 0 <= k < |s| && !(pos <= k < pos + |src|) ==> r[k] == s[k]
  {
    s[..pos] + src + s[pos + |src|..]
  }

  class MemoryStream {
    /** The caller's array; the stream writes into it directly, so the caller sees every write. */
    const buffer: array<Byte>
    /** The stream position: where the next write starts. */
    var position: nat

    ghost predicate Valid()
      reads this
    {
      position <= buffer.Length
    }

    /** `new MemoryStream(data, true)`: wraps `data` with capacity `data.Length`, position 0. */
    constructor (data: array<Byte>)
      ensures buffer == data && position == 0 && Valid()
    {
      buffer := data;
      position := 0;
    }

    /** `Write(src)`: copy `src` at the position and advance it, or throw
        NotSupportedException when the write would run past the fixed capacity,
        in which case nothing is written. */
    method Write(src: seq<Byte>) returns (r: Outcome)
      requires Valid()
      modifies this, buffer
      ensures Valid()
      ensures old(position) + |src| <= buffer.Length ==>
        r == Pass && position == old(position) + |src| &&
        buffer[..] == Overwrite(old(buffer[..]), old(position), src)
      ensures buffer.Length < old(position) + |src| ==>
        r == Fail(NotSupported) && position == old(position) && buffer[..] == old(buffer[..])
    {
      if buffer.Length < position + |src| {
        return Fail(NotSupported);
      }
      forall j | 0 <= j < |src| {
        buffer[position + j] := src[j];
      }
      assert buffer[..] == Overwrite(old(buffer[..]), position, src);
      position := position + |src|;
      r := Pass;
    }
  }
}
