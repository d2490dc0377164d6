/** The part of java.nio.ByteBuffer the converters rely on: a backing array
    (whose length is the capacity), a position and a limit. */
module Nio {
  import opened JavaTypes

  class ByteBuffer {
    const bytes: array<int8>
    var position: nat
    var limit: nat

    ghost predicate Valid()
      reads this
    {
      position <= limit <= bytes.Length
    }

    function Capacity(): nat
    {
      bytes.Length
    }

    function Remaining(): (r: nat)
      reads this
      requires Valid()
      ensures position + r == limit
    {
      limit - position
    }

    /** ByteBuffer.wrap(data): position 0, limit and capacity data.length. */
    constructor Wrap(data: array<int8>)
      ensures bytes == data && position == 0 && limit == data.Length
      ensures Valid()
    {
      bytes := data;
      position := 0;
      limit := data.Length;
    }

    /** Absolute get(int index): reads one byte without moving the position;
        an index at or past the limit raises IndexOutOfBoundsException. */
    method Get(index: nat) returns (r: Result<int8>)
      requires Valid()
      ensures r.Success? <==> index < limit
      ensures r.Success? ==> r.value == bytes[index]
      ensures r.Failure? ==> r.error == IndexOutOfBounds
    {
      if index < limit {
        r := Success(bytes[index]);
      } else {
        r := Failure(IndexOutOfBounds);
      }
    }

    /** Relative bulk get(byte[] dst): copies dst.Length bytes from the
        position onwards and advances the position by that much; with fewer
        bytes remaining it raises BufferUnderflowException and moves nothing. */
    method GetInto(dst: array<int8>) returns (r: Result<()>)
      requires Valid() && dst != bytes
      modifies this`position, dst
      ensures Valid()
      ensures r.Success? <==> dst.Length <= old(Remaining())
      ensures r.Failure? ==> r.error == BufferUnderflow
      ensures r.Failure? ==> position == old(position) && dst[..] == old(dst[..])
      ensures r.Success? ==> position == old(position) + dst.Length
      ensures r.Success? ==> dst[..] == bytes[old(position)..old(position) + dst.Length]
    {
      if dst.Length > limit - position {
        return Failure(BufferUnderflow);
      }
      forall i | 0 <= i < dst.Length {
        dst[i] := bytes[position + i];
      }
      position := position + dst.Length;
      r := Success(());
    }
  }
}
