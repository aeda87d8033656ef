/** The two mutable objects of the codec: the growing output and the advancing input. */
module Streams {
  import opened ByteStrings

  /** `&mut Vec<u8>`. */
  class Buffer {
    var bytes: Bytes

    constructor ()
      ensures bytes == []
    {
      bytes := [];
    }

    method Append(more: Bytes)
      modifies this
      ensures bytes == old(bytes) + more
    {
      bytes := bytes + more;
    }
  }

  /** `&mut &[u8]`: what is left to read. */
  class Cursor {
    var data: Bytes

    constructor (input: Bytes)
      ensures data == input
    {
      data := input;
    }
  }
}
