/** The growing byte buffer `struct mbuf` of examples/fossa/fossa.c. */
module Mbuf {
  import opened Bytes

  /** `size` is the length of `buf`; allocation is taken to succeed. */
  class Buffer {
    var buf: array<byte>
    var len: nat

    ghost predicate Valid()
      reads this
    {
      len <= buf.Length
    }

    ghost function Contents(): (s: seq<byte>)
      requires Valid()
      reads this, buf
    {
      buf[..len]
    }

    /** `mbuf_init`. */
    constructor (size: nat)
      ensures Valid() && Contents() == [] && fresh(buf) && buf.Length == size
    {
      buf := new byte[size];
      len := 0;
    }

    /** `mbuf_insert` of bytes; the buffer grows by half when it is too small. */
    method Insert(off: nat, data: seq<byte>)
      requires Valid() && off <= len
      modifies this, buf
      ensures Valid() && (buf == old(buf) || fresh(buf))
      ensures Contents() == old(Contents()[..off]) + data + old(Contents()[off..])
    {
      MakeRoom(off, |data|);
      CopyInto(buf, off, data);
      assert buf[..len] == old(Contents()[..off]) + data + old(Contents()[off..]);
    }

    /** `mbuf_append` without a source: `n` bytes of space with whatever the memory held. */
    method AppendSpace(n: nat)
      requires Valid()
      modifies this, buf
      ensures Valid() && (buf == old(buf) || fresh(buf))
      ensures len == old(len) + n && Contents()[..old(len)] == old(Contents())
    {
      MakeRoom(len, n);
    }

    /** The part of `mbuf_insert` before the copy: the tail moves up by `n` bytes. */
    method MakeRoom(off: nat, n: nat)
      requires Valid() && off <= len
      modifies this, buf
      ensures Valid() && (buf == old(buf) || fresh(buf)) && len == old(len) + n
      ensures buf[..off] == old(buf[..off]) && buf[off + n..len] == old(buf[off..len])
    {
      ghost var head, tail := buf[..off], buf[off..len];
      if len + n > buf.Length {
        Grow(n);
        assert buf[..off] == buf[..len][..off] && buf[off..len] == buf[..len][off..];
      }
      label Moving:
      forall k | off <= k < len {
        buf[k + n] := buf[k];
      }
      assert buf[..off] == head;
      len := len + n;
      assert forall k {:trigger tail[k]} :: 0 <= k < |tail| ==> buf[off + k + n] == tail[k];
      assert buf[off + n..len] == tail;
    }

    /** The `realloc` of `mbuf_insert`. */
    method Grow(n: nat)
      requires Valid() && len + n > buf.Length
      modifies this`buf
      ensures fresh(buf) && buf.Length >= len + n && buf[..len] == old(buf[..len])
    {
      var bigger := new byte[(len + n) * 3 / 2];
      forall k | 0 <= k < len {
        bigger[k] := buf[k];
      }
      buf := bigger;
    }

    /** `mbuf_append`. */
    method Append(data: seq<byte>)
      requires Valid()
      modifies this, buf
      ensures Valid() && (buf == old(buf) || fresh(buf))
      ensures Contents() == old(Contents()) + data
    {
      Insert(len, data);
    }

    /** `mbuf_remove`: the rest moves down; the memory behind it keeps its bytes. */
    method Remove(n: nat)
      requires Valid()
      modifies this`len, buf
      ensures Valid()
      ensures Contents() == if n <= old(len) then old(Contents())[n..] else old(Contents())
      ensures n == old(len) ==> buf[..] == old(buf[..])
    {
      if 0 < n <= len {
        forall k | 0 <= k < len - n {
          buf[k] := buf[k + n];
        }
        len := len - n;
      }
    }
  }
}
