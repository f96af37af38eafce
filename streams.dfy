/**
 * The byte source and sink the core reads from and writes to.  The source is
 * the memory stream of stream.c: it yields the next byte as a non-negative
 * int, and -1 (EOF) once its bytes are used up.  The sink is abstract: a
 * caller-supplied function decides whether each write succeeds.
 */
module Streams {
  import opened Bytes

  const EOF: int := -1

  /** What one read from the remaining bytes `rest` returns. */
  function ReadResult(rest: seq<byte>): (c: int)
    ensures c < 0 <==> rest == []
    ensures rest != [] ==> c == rest[0]
    ensures c == EOF || 0 <= c < 256
  {
    if rest == [] then EOF else rest[0]
  }

  /** The bytes left after one read. */
  function AfterRead(rest: seq<byte>): (r: seq<byte>)
    ensures rest == [] ==> r == []
    ensures rest != [] ==> r == rest[1..]
  {
    if rest == [] then [] else rest[1..]
  }

  class ByteSource {
    const data: seq<byte>
    var current: nat

    ghost predicate Valid()
      reads this
    {
      current <= |data|
    }

    /** The bytes not yet read. */
    ghost function Remaining(): seq<byte>
      reads this
      requires Valid()
    {
      data[current..]
    }

    constructor (data: seq<byte>)
      ensures Valid() && this.data == data && current == 0
      ensures Remaining() == data
    {
      this.data := data;
      current := 0;
    }

    /** hgbf_istream_read1 on a memory stream */
    method Read1() returns (c: int)
      requires Valid()
      modifies this
      ensures Valid()
      ensures c == ReadResult(old(Remaining()))
      ensures Remaining() == AfterRead(old(Remaining()))
    {
      if current < |data| {
        c := data[current];
        current := current + 1;
        assert data[current..] == data[current - 1..][1..];
      } else {
        c := EOF;
      }
    }
  }

  class ByteSink {
    /** decides, from the bytes already written, whether writing one more succeeds */
    const accepts: (seq<byte>, byte) -> bool
    var written: seq<byte>

    constructor (accepts: (seq<byte>, byte) -> bool)
      ensures this.accepts == accepts && written == []
    {
      this.accepts := accepts;
      written := [];
    }

    /** hgbf_ostream_write1: 0 on success, -1 on failure */
    method Write1(b: byte) returns (r: int)
      modifies this
      ensures r == 0 || r == -1
      ensures r == 0 <==> accepts(old(written), b)
      ensures written == if r == 0 then old(written) + [b] else old(written)
    {
      if accepts(written, b) {
        written := written + [b];
        r := 0;
      } else {
        r := -1;
      }
    }
  }
}
