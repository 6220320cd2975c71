/** The two kinds of open file the codec uses: a binary file opened for
    reading, with its cursor, and a binary file opened for writing, which
    only grows. */
module Streams {
  import opened Bytes

  /** What `file.read(n)` at cursor `pos` returns: up to `n` bytes, fewer
      (without error) when the end of the file comes first. */
  function ReadAt(data: seq<byte>, pos: nat, n: nat): (chunk: seq<byte>)
    requires pos <= |data|
    ensures |chunk| == Min(n, |data| - pos)
    ensures chunk == data[pos..pos + |chunk|]
  {
    data[pos..Min(pos + n, |data|)]
  }

  /** A file opened with mode "rb". */
  class Reader {
    const data: seq<byte>
    var pos: nat

    ghost predicate Valid()
      reads this
    {
      pos <= |data|
    }

    constructor (data: seq<byte>)
      ensures Valid() && this.data == data && pos == 0
    {
      this.data := data;
      pos := 0;
    }

    /** `file.read(n)` */
    method Read(n: nat) returns (chunk: seq<byte>)
      requires Valid()
      modifies this`pos
      ensures Valid()
      ensures chunk == ReadAt(data, old(pos), n)
      ensures pos == old(pos) + |chunk|
    {
      chunk := data[pos..Min(pos + n, |data|)];
      pos := pos + |chunk|;
    }
  }

  /** A file opened with mode "w+b": it starts empty and `file.write`
      appends. */
  class Sink {
    var written: seq<byte>

    constructor ()
      ensures written == []
    {
      written := [];
    }

    /** `file.write(b)` */
    method Write(b: seq<byte>)
      modifies this
      ensures written == old(written) + b
    {
      written := written + b;
    }
  }
}
