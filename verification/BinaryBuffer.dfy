/** The growing byte buffer of `cpp/src/binary_buffer.hpp`. */
module BinaryBuffers {
  import opened Bytes
  import opened Wrappers

  class BinaryBuffer {
    var buffer: seq<byte>
    var writePos: nat
    var readPos: nat

    ghost predicate Valid()
      reads this
    {
      writePos <= |buffer| && readPos <= |buffer|
    }

    /** What `data` shows: everything written since the last clear. */
    function Data(): seq<byte>
      requires Valid()
      reads this
    {
      buffer[..writePos]
    }

    /** What `read` can still reach. Its bound is the storage, not the write position. */
    ghost function Unread(): seq<byte>
      requires Valid()
      reads this
    {
      buffer[readPos..]
    }

    constructor ()
      ensures Valid() && Data() == [] && Unread() == []
      ensures writePos == |buffer| && readPos == 0
    {
      buffer, writePos, readPos := [], 0, 0;
    }

    method Clear()
      requires Valid()
      modifies this
      ensures Valid() && Data() == []
      ensures buffer == old(buffer) && readPos == 0
    {
      writePos, readPos := 0, 0;
    }

    /** Appends `src` after the bytes written so far, growing the storage when it is too short. */
    method Write(src: seq<byte>)
      requires Valid()
      modifies this
      ensures Valid() && readPos == old(readPos)
      ensures Data() == old(Data()) + src
      ensures old(writePos == |buffer|) ==> writePos == |buffer| && Unread() == old(Unread()) + src
      ensures buffer[writePos..] == if writePos <= old(|buffer|) then old(buffer)[writePos..] else []
    {
      var required := writePos + |src|;
      if required > |buffer| {
        buffer := buffer + seq(required - |buffer|, _ => 0);
      }
      buffer := buffer[..writePos] + src + buffer[required..];
      writePos := required;
    }

    /** Takes the next `n` bytes, or nothing when the storage is too short. */
    method Read(n: nat) returns (r: Option<seq<byte>>)
      requires Valid()
      modifies this`readPos
      ensures Valid()
      ensures r.Some? <==> n <= old(|Unread()|)
      ensures r.Some? ==> r.value == old(Unread())[..n] && Unread() == old(Unread())[n..]
      ensures r.None? ==> Unread() == old(Unread())
    {
      if readPos + n > |buffer| {
        return None;
      }
      r := Some(buffer[readPos..readPos + n]);
      readPos := readPos + n;
    }
  }
}
