/** The fixed array with a read and a write cursor under both directions of a socket. */
module ByteBuffers {
  import opened Bytes

  class ByteBuffer {
    const data: array<byte>
    var start: nat
    var end: nat

    /** In particular an empty buffer has both cursors at zero. */
    ghost predicate Valid()
      reads this
    {
      start <= end <= data.Length && (start == end ==> end == 0)
    }

    ghost function Contents(): bytes
      reads this, data
      requires Valid()
    {
      data[start..end]
    }

    constructor (size: nat)
      ensures Valid() && fresh(data) && data.Length == size && Contents() == []
    {
      data := new byte[size](_ => 0);
      start, end := 0, 0;
    }

    function Available(): (n: nat)
      reads this, data
      requires Valid()
      ensures n == |Contents()|
    {
      end - start
    }

    /** An empty buffer always offers its whole array. */
    function Capacity(): (n: nat)
      reads this, data
      requires Valid()
      ensures n + |Contents()| <= data.Length
      ensures Contents() == [] ==> n == data.Length
    {
      data.Length - end
    }

    method IncrementReadP(size: nat)
      requires Valid() && size <= Available()
      modifies this
      ensures Valid() && Contents() == old(Contents())[size..]
    {
      start := start + size;
      if start == end {
        start, end := 0, 0;
      }
    }

    /** The octets at the write pointer become part of the contents. */
    method IncrementWriteP(size: nat)
      requires Valid() && size <= Capacity()
      modifies this
      ensures Valid() && Contents() == old(Contents()) + old(data[end..end + size])
    {
      end := end + size;
      if size == 0 {
        assert old(data[end..end + size]) == [];
      }
    }

    method GetReadChunk() returns (chunk: bytes)
      requires Valid()
      ensures chunk == Contents()
    {
      chunk := data[start..end];
    }

    /** Both overloads of `read`: `taken` is what is appended to, or copied into, the destination. */
    method Read(size: nat) returns (taken: bytes)
      requires Valid()
      modifies this
      ensures Valid()
      ensures var n := Min(size, |old(Contents())|);
        taken == old(Contents())[..n] && Contents() == old(Contents())[n..]
    {
      var n := Min(size, Available());
      taken := data[start..start + n];
      assert taken == Contents()[..n];
      IncrementReadP(n);
    }

    method ReadC() returns (c: int)
      requires Valid()
      modifies this
      ensures Valid()
      ensures old(Contents()) == [] ==> c == -1 && Contents() == []
      ensures old(Contents()) != [] ==> c == old(Contents())[0] && Contents() == old(Contents())[1..]
    {
      if Available() == 0 {
        return -1;
      }
      c := data[start];
      IncrementReadP(1);
    }

    method Write(src: bytes) returns (n: nat)
      requires Valid()
      modifies this, data
      ensures Valid()
      ensures n == Min(|src|, old(Capacity()))
      ensures Contents() == old(Contents()) + src[..n]
    {
      n := Min(Capacity(), |src|);
      forall i | 0 <= i < n {
        data[end + i] := src[i];
      }
      assert data[end..end + n] == src[..n];
      assert data[start..end] == old(data[start..end]);
      IncrementWriteP(n);
    }
  }
}
