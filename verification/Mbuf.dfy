/**
 The growable I/O buffer every engine works on: `len` used bytes at the front of
 an allocation of `buf.Length` bytes. Growing replaces the allocation.
 */
module IoBuffers {
  import opened Bytes

  class Mbuf {
    var buf: array<byte>
    var len: nat

    ghost predicate Valid()
      reads this
    {
      len <= buf.Length
    }

    /** What the buffer holds. */
    ghost function Contents(): (s: seq<byte>)
      requires Valid()
      reads this, buf
      ensures |s| == len
    {
      buf[..len]
    }

    constructor (initialSize: nat)
      ensures Valid() && fresh(buf) && buf.Length == initialSize
      ensures Contents() == []
    {
      buf := new byte[initialSize];
      len := 0;
    }

    /** Changes the allocation, never below `len`; what it keeps is unchanged. */
    method Resize(newSize: nat)
      requires Valid()
      modifies this`buf
      ensures Valid() && Contents() == old(Contents())
      ensures buf.Length == if newSize > old(buf.Length) || newSize >= len then newSize else old(buf.Length)
      ensures buf[..Min(buf.Length, old(buf.Length))] == old(buf[..])[..Min(buf.Length, old(buf.Length))]
      ensures buf == old(buf) || fresh(buf)
    {
      if newSize > buf.Length || (newSize < buf.Length && newSize >= len) {
        Realloc(newSize);
      }
    }

    method Realloc(newSize: nat)
      requires Valid() && newSize >= len
      modifies this`buf
      ensures Valid() && Contents() == old(Contents())
      ensures buf.Length == newSize && fresh(buf)
      ensures buf[..Min(newSize, old(buf.Length))] == old(buf[..])[..Min(newSize, old(buf.Length))]
    {
      var a := new byte[newSize];
      var n := Min(newSize, buf.Length);
      MemCpy(a, 0, buf[..n]);
      buf := a;
    }

    /** Gives back the unused part of the allocation. */
    method Trim()
      requires Valid()
      modifies this`buf
      ensures Valid() && Contents() == old(Contents()) && buf.Length == len
      ensures buf == old(buf) || fresh(buf)
    {
      Resize(len);
    }

    /** Inserts a byte string at an offset, growing by half again when it does not fit. */
    method Insert(off: nat, data: seq<byte>)
      requires Valid() && off <= len
      modifies this, buf
      ensures Valid() && (buf == old(buf) || fresh(buf))
      ensures Contents() == old(Contents())[..off] + data + old(Contents())[off..]
      ensures buf.Length == if old(len) + |data| <= old(buf.Length) then old(buf.Length)
                            else (old(len) + |data|) * 3 / 2
    {
      if len + |data| > buf.Length {
        Realloc((len + |data|) * 3 / 2);
      }
      InsertInto(buf, off, data, len);
      len := len + |data|;
    }

    /** Appends a byte string. */
    method Append(data: seq<byte>)
      requires Valid()
      modifies this, buf
      ensures Valid() && (buf == old(buf) || fresh(buf))
      ensures Contents() == old(Contents()) + data
    {
      Insert(len, data);
    }

    /** Appends n bytes of unspecified value, as appending from a null pointer does. */
    method AppendGap(n: nat)
      requires Valid()
      modifies this, buf
      ensures Valid() && (buf == old(buf) || fresh(buf))
      ensures len == old(len) + n
      ensures Contents()[..old(len)] == old(Contents())
    {
      if len + n > buf.Length {
        Realloc((len + n) * 3 / 2);
      }
      assert buf[..len] == old(Contents());
      len := len + n;
    }

    /** Drops n bytes from the front; a count beyond `len` leaves the buffer alone. */
    method Remove(n: nat)
      requires Valid()
      modifies this`len, buf
      ensures Valid()
      ensures Contents() == if n <= old(len) then old(Contents())[n..] else old(Contents())
      // what lies beyond `len` still has its old value (read by the websocket engine)
      ensures forall k :: len <= k < buf.Length ==> buf[k] == old(buf[k])
    {
      if n > 0 && n <= len {
        MemMove(buf, 0, n, len - n);
        assert buf[..len - n] == old(buf[..])[n..len];
        len := len - n;
      }
    }
  }
}
