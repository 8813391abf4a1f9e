/** A growing byte vector that writers append to and patch, passed around by reference. */
module Buffers {
  import opened Octets

  class ByteBuffer {
    var data: Bytes

    constructor ()
      ensures data == []
    {
      data := [];
    }

    method Push(b: byte)
      modifies this
      ensures data == old(data) + [b]
    {
      data := data + [b];
    }

    method Append(s: Bytes)
      modifies this
      ensures data == old(data) + s
    {
      data := data + s;
    }

    method Patch(index: nat, b: byte)
      requires index < |data|
      modifies this
      ensures data == old(data)[index := b]
    {
      data := data[index := b];
    }

    /** vector::resize with zero filling. */
    method PadTo(size: nat)
      requires |data| <= size
      modifies this
      ensures data == old(data) + Zeros(size - |old(data)|)
    {
      data := data + Zeros(size - |data|);
    }
  }
}
