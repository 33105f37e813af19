/** Shared vocabulary: optional values, the I/O error kinds the framing
    code raises, 64-bit signed integers, and in-memory models of a blocking
    reader and a buffered writer. */
module Io {

  datatype Option<+T> = None | Some(value: T)

  /** The two `std::io::ErrorKind`s the framing code produces: a short read
      (`read_exact` hitting the end of the stream) and malformed data. */
  datatype IoError = UnexpectedEof | InvalidData

  datatype Result<+T> = Ok(value: T) | Err(error: IoError)

  /** Concatenation is associative. */
  lemma SeqAssoc<T>(a: seq<T>, b: seq<T>, c: seq<T>)
    ensures a + (b + c) == (a + b) + c
  {
  }

  /** Rust's `i64`. */
  type int64 = x: int | -0x8000_0000_0000_0000 <= x <= 0x7FFF_FFFF_FFFF_FFFF

  /** A reader over a finite stream: `stream` is everything the peer will
      ever write, `pos` is how far it has been read. */
  class Source<T> {
    const stream: seq<T>
    var pos: nat

    ghost predicate Valid()
      reads this
    {
      pos <= |stream|
    }

    /** What has not been read yet. */
    ghost function Remaining(): seq<T>
      reads this
      requires Valid()
    {
      stream[pos..]
    }

    constructor (s: seq<T>)
      ensures Valid() && Remaining() == s
    {
      stream := s;
      pos := 0;
    }

    /** `Read::read_exact`: fill `buf` completely, or fail with
        `UnexpectedEof` after draining what is left of the stream. */
    method ReadExact(buf: array<T>) returns (ok: bool)
      requires Valid()
      modifies this, buf
      ensures Valid()
      ensures ok <==> buf.Length <= |old(Remaining())|
      ensures ok ==> buf[..] == old(Remaining())[..buf.Length]
      ensures ok ==> Remaining() == old(Remaining())[buf.Length..]
      ensures !ok ==> Remaining() == []
    {
      var start := pos;
      var n := if buf.Length <= |stream| - start then buf.Length else |stream| - start;
      for i := 0 to n
        invariant pos == start
        invariant forall j :: 0 <= j < i ==> buf[j] == stream[start + j]
      {
        buf[i] := stream[start + i];
      }
      pos := start + n;
      ok := buf.Length <= |stream| - start;
    }
  }

  /** A buffered writer: `delivered` is what the peer can already read,
      `buffered` what has been written but not yet flushed. */
  class Sink<T> {
    var delivered: seq<T>
    var buffered: seq<T>

    constructor ()
      ensures delivered == [] && buffered == []
    {
      delivered, buffered := [], [];
    }

    /** `Write::write_all`. */
    method WriteAll(items: seq<T>)
      modifies this
      ensures delivered == old(delivered) && buffered == old(buffered) + items
    {
      buffered := buffered + items;
    }

    /** `Write::flush`. */
    method Flush()
      modifies this
      ensures delivered == old(delivered) + old(buffered) && buffered == []
    {
      delivered, buffered := delivered + buffered, [];
    }
  }
}
